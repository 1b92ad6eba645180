/** The text store: a treap of heap nodes over an immutable and an append-only
    byte store, changed in place, and always equal to a flat byte sequence. */
module TextStore {
  import opened Bytes
  import opened Utf8
  import opened PieceTree

  /** One node of the treap. `model` is the tree below it as a value. */
  class Piece {
    var left: Piece?
    var right: Piece?
    var span: Span
    var bytesSum: nat
    var linesSum: nat
    var charsSum: nat
    var priority: nat
    ghost var model: Tree
    ghost var Repr: set<object>

    ghost predicate Valid()
      reads this, Repr
      ensures Valid() ==> this in Repr
    {
      && this in Repr
      && (left != null ==> left in Repr && left.Repr <= Repr && this !in left.Repr && left.Valid())
      && (right != null ==> right in Repr && right.Repr <= Repr && this !in right.Repr && right.Valid())
      && R(left) !! R(right)
      && Repr == {this} + R(left) + R(right)
      && model == Node(M(left), span, priority, M(right))
      && bytesSum == Size(model) && linesSum == Lines(model) && charsSum == Chars(model)
    }

    /** What Valid says of the node itself. */
    lemma Parts()
      requires Valid()
      ensures Ok(left) && Ok(right)
      ensures this !in R(left) && this !in R(right) && R(left) !! R(right)
      ensures Repr == {this} + R(left) + R(right)
      ensures model == Node(M(left), span, priority, M(right))
      ensures BytesOf(left) == Size(M(left)) && LinesOf(left) == Lines(M(left)) && CharsOf(left) == Chars(M(left))
      ensures bytesSum == Size(model) && linesSum == Lines(model) && charsSum == Chars(model)
    {
    }

    /** The converse of Parts. */
    lemma Whole()
      requires Ok(left) && Ok(right)
      requires this !in R(left) && this !in R(right) && R(left) !! R(right)
      requires Repr == {this} + R(left) + R(right)
      requires model == Node(M(left), span, priority, M(right))
      requires bytesSum == Size(model) && linesSum == Lines(model) && charsSum == Chars(model)
      ensures Valid()
    {
    }

    static ghost function M(p: Piece?): Tree
      reads p
    {
      if p == null then Leaf else p.model
    }

    static ghost function R(p: Piece?): set<object>
      reads p
    {
      if p == null then {} else p.Repr
    }

    static ghost predicate Ok(p: Piece?)
      reads p, R(p)
    {
      p != null ==> p.Valid()
    }

    static function BytesOf(p: Piece?): nat
      reads p
    {
      if p == null then 0 else p.bytesSum
    }

    static function LinesOf(p: Piece?): nat
      reads p
    {
      if p == null then 0 else p.linesSum
    }

    static function CharsOf(p: Piece?): nat
      reads p
    {
      if p == null then 0 else p.charsSum
    }

    constructor (span: Span, priority: nat)
      ensures Valid() && Repr == {this}
      ensures model == Node(Leaf, span, priority, Leaf)
    {
      left, right := null, null;
      this.span, this.priority := span, priority;
      bytesSum, linesSum, charsSum := span.length, span.newlines, span.chars;
      model := Node(Leaf, span, priority, Leaf);
      Repr := {this};
    }

    /** update: recompute the sums after a child or the span changed. */
    method Update()
      requires Ok(left) && Ok(right)
      requires this !in R(left) && this !in R(right) && R(left) !! R(right)
      modifies this
      ensures left == old(left) && right == old(right)
      ensures Valid()
      ensures model == Node(old(M(left)), old(span), old(priority), old(M(right)))
      ensures Repr == {this} + old(R(left)) + old(R(right))
    {
      hide Valid;
      bytesSum := BytesOf(left) + span.length + BytesOf(right);
      linesSum := LinesOf(left) + span.newlines + LinesOf(right);
      charsSum := CharsOf(left) + span.chars + CharsOf(right);
      model := Node(M(left), span, priority, M(right));
      Repr := {this} + R(left) + R(right);
      ChildSums();
      Whole();
    }

    /** The cached sums of the children are those of their trees. */
    lemma ChildSums()
      requires Ok(left) && Ok(right)
      ensures BytesOf(left) == Size(M(left)) && LinesOf(left) == Lines(M(left)) && CharsOf(left) == Chars(M(left))
      ensures BytesOf(right) == Size(M(right)) && LinesOf(right) == Lines(M(right)) && CharsOf(right) == Chars(M(right))
    {
    }

    method SetPriority(value: nat)
      requires Valid()
      modifies this
      ensures Valid() && Repr == old(Repr)
      ensures model == old(model).(priority := value)
    {
      priority := value;
      model := model.(priority := value);
    }

    method SetLeft(p: Piece?)
      requires Ok(p) && Ok(right)
      requires this !in R(p) && this !in R(right) && R(p) !! R(right)
      modifies this
      ensures Valid()
      ensures model == Node(old(M(p)), old(span), old(priority), old(M(right)))
      ensures Repr == {this} + old(R(p)) + old(R(right))
    {
      left := p;
      Update();
    }

    method SetRight(p: Piece?)
      requires Ok(left) && Ok(p)
      requires this !in R(left) && this !in R(p) && R(left) !! R(p)
      modifies this
      ensures Valid()
      ensures model == Node(old(M(left)), old(span), old(priority), old(M(p)))
      ensures Repr == {this} + old(R(left)) + old(R(p))
    {
      right := p;
      Update();
    }

    /** merge. */
    static method Merged(a: Piece?, b: Piece?) returns (r: Piece?)
      requires Ok(a) && Ok(b) && R(a) !! R(b)
      modifies R(a), R(b)
      ensures Ok(r)
      ensures M(r) == Merge(old(M(a)), old(M(b)))
      ensures R(r) == old(R(a)) + old(R(b))
      decreases M(a), M(b)
    {
      hide Piece.Valid, Size, Lines, Chars;
      if a == null { return b; }
      if b == null { return a; }
      a.Parts();
      b.Parts();
      if a.priority > b.priority {
        var p := Merged(a.right, b);
        a.SetRight(p);
        return a;
      }
      var p := Merged(a, b.left);
      b.SetLeft(p);
      return b;
    }

    /** append_right. */
    static method ExtendRight(p: Piece?, offset: nat, s: bytes) returns (ok: bool)
      requires Ok(p)
      modifies R(p)
      ensures Ok(p) && R(p) == old(R(p))
      ensures (ok, M(p)) == AppendRight(old(M(p)), offset, s)
      decreases M(p)
    {
      hide Piece.Valid, Size, Lines, Chars;
      if p == null { return false; }
      p.Parts();
      if p.right != null {
        p.right.Parts();
        ok := ExtendRight(p.right, offset, s);
        if ok {
          p.Update();
        } else {
          p.Whole();
        }
        return;
      }
      if !p.span.fromAdded || p.span.offset + p.span.length != offset { return false; }
      if p.span.length + |s| > MAX_PIECE { return false; }
      var newlines, chars := Tally(s);
      p.span := p.span.(length := p.span.length + |s|, newlines := p.span.newlines + newlines,
          chars := p.span.chars + chars);
      p.Update();
      return true;
    }
  }

  /** The counting loop of node() and append_right. */
  method Tally(s: bytes) returns (newlines: nat, chars: nat)
    ensures newlines == Count(Newlines, s) && chars == Count(Starts, s)
  {
    newlines, chars := 0, 0;
    var i := 0;
    while i < |s|
      invariant 0 <= i <= |s|
      invariant newlines == Count(Newlines, s[..i]) && chars == Count(Starts, s[..i])
    {
      CountStep(Newlines, s, i);
      CountStep(Starts, s, i);
      if s[i] == LF { newlines := newlines + 1; }
      if !IsCont(s[i]) { chars := chars + 1; }
      i := i + 1;
    }
    assert s[..i] == s;
  }

  class Text {
    const original: bytes
    var root: Piece?
    var added: bytes
    var random: bv32
    ghost var Repr: set<object>

    function Stores(): Store
      reads this
    {
      Store(original, added)
    }

    ghost function Contents(): bytes
      reads this, root
    {
      Flat(Stores(), Piece.M(root))
    }

    ghost predicate Valid()
      reads this, Repr
      ensures Valid() ==> this in Repr
    {
      && this in Repr
      && (root != null ==> root in Repr && root.Repr <= Repr && this !in root.Repr && root.Valid())
      && WellFormed(Stores(), Piece.M(root))
    }

    /** random_next: xorshift. */
    method NextRandom() returns (r: nat)
      modifies this`random
    {
      random := random ^ (random << 13);
      random := random ^ (random >> 17);
      random := random ^ (random << 5);
      r := random as nat;
    }

    /** node. */
    method NewPiece(fromAdded: bool, offset: nat, length: nat) returns (p: Piece)
      requires offset + length <= |Stores().Source(fromAdded)|
      modifies this`random
      ensures fresh(p) && p.Valid() && p.Repr == {p}
      ensures p.model == Node(Leaf, MakeSpan(Stores(), fromAdded, offset, length), p.priority, Leaf)
    {
      var priority := NextRandom();
      var s := Stores().Source(fromAdded)[offset..offset + length];
      var newlines, chars := Tally(s);
      p := new Piece(Span(fromAdded, offset, length, newlines, chars), priority);
    }

    /** split. */
    method SplitAt(p: Piece?, at: nat) returns (a: Piece?, b: Piece?)
      requires Piece.Ok(p) && this !in Piece.R(p) && SpansOk(Stores(), Piece.M(p))
      modifies this`random, Piece.R(p)
      ensures Piece.Ok(a) && Piece.Ok(b) && Piece.R(a) !! Piece.R(b)
      ensures fresh(Piece.R(a) - old(Piece.R(p))) && fresh(Piece.R(b) - old(Piece.R(p)))
      ensures (Piece.M(a), Piece.M(b)) == Split(Stores(), old(Piece.M(p)), at)
      decreases Piece.M(p)
    {
      hide Piece.Valid, Size, Lines, Chars, SpanOk, SpansOk, CutSpan, Merge;
      if p == null { return null, null; }
      p.Parts();
      SpansParts(Stores(), p.model);
      var left, n := Piece.BytesOf(p.left), p.span.length;
      if at < left {
        var x;
        a, x := SplitAt(p.left, at);
        p.SetLeft(x);
        b := p;
      } else if at > left + n {
        var x;
        x, b := SplitAt(p.right, at - left - n);
        p.SetRight(x);
        a := p;
      } else if at == left {
        a := p.left;
        p.SetLeft(null);
        b := p;
      } else if at == left + n {
        b := p.right;
        p.SetRight(null);
        a := p;
      } else {
        a, b := CutMiddle(p, at - left);
      }
    }

    /** The branch of split that replaces a node by two. */
    method CutMiddle(p: Piece, k: nat) returns (a: Piece?, b: Piece?)
      requires p.Valid() && this !in p.Repr && SpanOk(Stores(), p.span) && 0 < k < p.span.length
      modifies this`random, p.Repr
      ensures Piece.Ok(a) && Piece.Ok(b) && Piece.R(a) !! Piece.R(b)
      ensures fresh(Piece.R(a) - old(p.Repr)) && fresh(Piece.R(b) - old(p.Repr))
      ensures var (x, y) := CutSpan(Stores(), old(p.span), k);
              && Piece.M(a) == Merge(old(Piece.M(p.left)), Node(Leaf, x, old(p.priority), Leaf))
              && Piece.M(b) == Merge(Node(Leaf, y, old(p.priority), Leaf), old(Piece.M(p.right)))
    {
      hide Piece.Valid, Size, Lines, Chars, Merge, SpanOk, MakeSpan;
      p.Parts();
      var x, y := Halves(p.span, k, p.priority);
      var right := p.right;
      a := Piece.Merged(p.left, x);
      b := Piece.Merged(y, right);
    }

    method Halves(s: Span, k: nat, priority: nat) returns (x: Piece, y: Piece)
      requires SpanOk(Stores(), s) && 0 < k < s.length
      modifies this`random
      ensures fresh(x) && fresh(y) && x != y && x.Valid() && y.Valid() && x.Repr == {x} && y.Repr == {y}
      ensures x.model == Node(Leaf, CutSpan(Stores(), s, k).0, priority, Leaf)
      ensures y.model == Node(Leaf, CutSpan(Stores(), s, k).1, priority, Leaf)
    {
      hide Piece.Valid, Utf8.Valid, Count, CutSpan, Data;
      CutSpanData(Stores(), s, k);
      x := NewPiece(s.fromAdded, s.offset, k);
      x.SetPriority(priority);
      y := NewPiece(s.fromAdded, s.offset + k, s.length - k);
      y.SetPriority(priority);
    }

    /** The loop of pieces that moves a cut back to a code-point start. */
    static method BackOff(s: bytes, limit: nat) returns (m: nat)
      requires Utf8.Valid(s) && 3 < limit < |s|
      ensures 0 < m <= limit && IsBoundary(s, m)
    {
      hide Utf8.Valid;
      m := limit;
      BoundaryNear(s, limit);
      ghost var j :| limit - 3 <= j <= limit && IsBoundary(s, j);
      while m > 0 && IsCont(s[m])
        invariant j <= m <= limit
      {
        m := m - 1;
      }
    }

    /** One turn of the loop of pieces. */
    method FirstPiece(fromAdded: bool, offset: nat, n: nat) returns (p: Piece, m: nat)
      requires 0 < n && offset + n <= |Stores().Source(fromAdded)|
      requires Utf8.Valid(Stores().Source(fromAdded)[offset..offset + n])
      modifies this`random
      ensures fresh(p) && p.Valid() && p.Repr == {p} && 0 < m <= n
      ensures var src := Stores().Source(fromAdded);
              && WellFormed(Stores(), p.model) && Flat(Stores(), p.model) == src[offset..offset + m]
              && Utf8.Valid(src[offset + m..offset + n])
    {
      hide Piece.Valid, Utf8.Valid, Count, Flat, WellFormed, MakeSpan;
      var s := Stores().Source(fromAdded)[offset..offset + n];
      m := if n > MAX_PIECE then MAX_PIECE else n;
      if m < n {
        m := BackOff(s, m);
      }
      p := NewPiece(fromAdded, offset, m);
      SinglePiece(Stores(), fromAdded, offset, m, n, p.priority);
    }

    /** pieces: cut a stretch of a store into nodes of at most 4096 bytes. */
    method MakePieces(fromAdded: bool, offset: nat, length: nat) returns (r: Piece?)
      requires offset + length <= |Stores().Source(fromAdded)|
      requires Utf8.Valid(Stores().Source(fromAdded)[offset..offset + length])
      modifies this`random
      ensures Piece.Ok(r) && fresh(Piece.R(r))
      ensures WellFormed(Stores(), Piece.M(r))
      ensures Flat(Stores(), Piece.M(r)) == Stores().Source(fromAdded)[offset..offset + length]
    {
      hide Piece.Valid, Utf8.Valid, Merge, Flat, WellFormed;
      r := null;
      ghost var st := Stores();
      ghost var src := st.Source(fromAdded);
      var off: nat, n: nat := offset, length;
      EmptyTree(st);
      while n > 0
        invariant off + n == offset + length <= |src| && offset <= off
        invariant Stores() == st
        invariant Utf8.Valid(src[off..off + n])
        invariant Piece.Ok(r) && fresh(Piece.R(r))
        invariant WellFormed(st, Piece.M(r)) && Flat(st, Piece.M(r)) == src[offset..off]
      {
        var p, m := FirstPiece(fromAdded, off, n);
        MergeFlat(st, Piece.M(r), p.model);
        MergeKeeps(st, Piece.M(r), p.model);
        r := Piece.Merged(r, p);
        assert src[offset..off] + src[off..off + m] == src[offset..off + m];
        off, n := off + m, n - m;
      }
    }

    /** text_init; the caller has checked the bytes (src/buffer.c:127). */
    constructor (s: bytes)
      requires Utf8.Valid(s)
      ensures Valid() && fresh(Repr)
      ensures Contents() == s
    {
      original := s;
      added := [];
      random := 0x9e3779b9;
      root := null;
      new;
      hide Piece.Valid, Utf8.Valid, WellFormed, Flat;
      assert s[0..|s|] == s;
      root := MakePieces(false, 0, |s|);
      Repr := {this} + Piece.R(root);
    }

    /** text_size. */
    method Length() returns (n: nat)
      requires Valid()
      ensures n == |Contents()|
    {
      if root != null { root.Parts(); }
      SizeCorrect(Stores(), Piece.M(root));
      n := Piece.BytesOf(root);
    }

    /** text_byte. */
    method ByteAt(at: nat) returns (b: byte)
      requires Valid()
      ensures b == if at < |Contents()| then Contents()[at] else 0
    {
      hide Piece.Valid, SpansOk, HeapOrdered, Flat, Size;
      ghost var st, c := Stores(), Contents();
      var p, k: nat := root, at;
      SizeCorrect(st, Piece.M(p));
      while p != null
        invariant Piece.Ok(p) && SpansOk(st, Piece.M(p)) && |Flat(st, Piece.M(p))| == Size(Piece.M(p))
        invariant at < |c| <==> k < Size(Piece.M(p))
        invariant at < |c| ==> c[at] == Flat(st, Piece.M(p))[k]
        decreases Piece.M(p)
      {
        p.Parts();
        Locate(st, p.model, k);
        var l := Piece.BytesOf(p.left);
        if k < l {
          p := p.left;
        } else if k < l + p.span.length {
          return DataOf(p)[k - l];
        } else {
          k := k - (l + p.span.length);
          p := p.right;
        }
      }
      EmptyTree(st);
      return 0;
    }

    /** text_boundary. */
    method Boundary(at: nat) returns (ok: bool)
      requires Valid()
      ensures ok == IsBoundary(Contents(), at)
    {
      var n := Length();
      if at > n { return false; }
      if at == n { return true; }
      var b := ByteAt(at);
      ok := !IsCont(b);
    }

    /** The end of text_insert: rebuild the tree from the two halves. */
    method Join(a: Piece?, b: Piece?, offset: nat, s: bytes) returns (r: Piece?, ghost t: Tree)
      requires Piece.Ok(a) && Piece.Ok(b) && Piece.R(a) !! Piece.R(b) && this !in Piece.R(a) + Piece.R(b)
      requires Utf8.Valid(s) && offset + |s| == |added| && added[offset..] == s
      modifies this`random, Piece.R(a), Piece.R(b)
      ensures Piece.Ok(r) && fresh(Piece.R(r) - old(Piece.R(a)) - old(Piece.R(b)))
      ensures Piece.M(r) == Inserted(old(Piece.M(a)), old(Piece.M(b)), offset, s, t)
      ensures AppendRight(old(Piece.M(a)), offset, s).0 || (WellFormed(Stores(), t) && Flat(Stores(), t) == s)
    {
      hide Piece.Valid, Utf8.Valid, Merge, Flat, WellFormed, AppendRight;
      t := Leaf;
      var extended := Piece.ExtendRight(a, offset, s);
      if extended {
        r := Piece.Merged(a, b);
      } else {
        assert added[offset..offset + |s|] == s;
        var p := MakePieces(true, offset, |s|);
        t := Piece.M(p);
        r := Piece.Merged(a, p);
        r := Piece.Merged(r, b);
      }
    }

    /** text_insert after its checks. */
    method InsertTree(at: nat, s: bytes)
      requires Valid() && Utf8.Valid(s) && IsBoundary(Contents(), at)
      modifies Repr
      ensures Valid() && fresh(Repr - old(Repr))
      ensures Contents() == Splice(old(Contents()), at, 0, s)
    {
      hide Piece.Valid, Utf8.Valid, Merge, Flat, SpansOk, HeapOrdered, Split, AppendRight, Inserted;
      ghost var st, t := Stores(), Piece.M(root);
      var offset := |added|;
      added := added + s;
      assert added[offset..] == s;
      GrowKeeps(st, s, t);
      var a, b := SplitAt(root, at);
      SplitGrow(st, s, t, at);
      var r, piece := Join(a, b, offset, s);
      InsertCorrect(st, t, at, s, piece);
      root := r;
      Repr := {this} + Piece.R(r);
    }

    /** text_insert. */
    method Insert(at: nat, s: bytes) returns (ok: bool)
      requires Valid()
      modifies Repr
      ensures Valid() && fresh(Repr - old(Repr))
      ensures ok == (IsBoundary(old(Contents()), at) && Utf8.Valid(s))
      ensures Contents() == if ok then Splice(old(Contents()), at, 0, s) else old(Contents())
    {
      hide Valid, Utf8.Valid, Contents;
      var boundary := Boundary(at);
      var valid := Utf8Valid(s);
      if !boundary || !valid { return false; }
      if |s| == 0 { return true; }
      InsertTree(at, s);
      return true;
    }

    /** text_delete after its checks. */
    method DeleteTree(at: nat, n: nat)
      requires Valid() && at + n <= |Contents()| && IsBoundary(Contents(), at) && IsBoundary(Contents(), at + n)
      modifies Repr
      ensures Valid() && fresh(Repr - old(Repr))
      ensures Contents() == Splice(old(Contents()), at, n, [])
    {
      hide Piece.Valid, Utf8.Valid, Merge, Flat, SpansOk, HeapOrdered, Split;
      ghost var st, t := Stores(), Piece.M(root);
      SizeCorrect(st, t);
      DeleteCorrect(st, t, at, n);
      SplitCorrect(st, t, at);
      var a, b := SplitAt(root, at);
      var dropped, c := SplitAt(b, n);
      var r := Piece.Merged(a, c);
      root := r;
      Repr := {this} + Piece.R(r);
    }

    /** text_delete. */
    method Delete(at: nat, n: nat) returns (ok: bool)
      requires Valid()
      modifies Repr
      ensures Valid() && fresh(Repr - old(Repr))
      ensures ok == (at + n <= |old(Contents())| && IsBoundary(old(Contents()), at)
              && IsBoundary(old(Contents()), at + n))
      ensures Contents() == if ok then Splice(old(Contents()), at, n, []) else old(Contents())
    {
      hide Valid, Contents;
      var size := Length();
      if at > size || n > size - at { return false; }
      var first := Boundary(at);
      var last := Boundary(at + n);
      if !first || !last { return false; }
      DeleteTree(at, n);
      return true;
    }

    /** text_lines. */
    method LineCount() returns (n: nat)
      requires Valid()
      ensures n == Count(Newlines, Contents()) + 1
    {
      if root != null { root.Parts(); }
      SumsCorrect(Stores(), Piece.M(root));
      n := Piece.LinesOf(root) + 1;
    }

    /** text_chars. */
    method CharCount() returns (n: nat)
      requires Valid()
      ensures n == Count(Starts, Contents())
    {
      if root != null { root.Parts(); }
      SumsCorrect(Stores(), Piece.M(root));
      n := Piece.CharsOf(root);
    }

    static function SumOf(m: Metric, p: Piece?): nat
      reads p
    {
      if m == Newlines then Piece.LinesOf(p) else Piece.CharsOf(p)
    }

    /** prefix_metric: newlines or code points before an offset. */
    method PrefixMetric(at: nat, m: Metric) returns (result: nat)
      requires Valid()
      ensures result == Count(m, Contents()[..Min(at, |Contents()|)])
    {
      hide Piece.Valid, Utf8.Valid, WellFormed, SpansOk, Flat, Size, Lines, Chars, Data, Walk, Count;
      ghost var st, c := Stores(), Contents();
      WalkStart(st, Piece.M(root), m);
      ghost var pre, post: bytes := [], [];
      var p, k: nat := root, at;
      result := 0;
      while p != null
        invariant Piece.Ok(p) && Walk(c, st, Piece.M(p), pre, post)
        invariant result == Count(m, pre) && at == |pre| + k
        invariant post == [] || k <= Size(Piece.M(p))
        decreases Piece.M(p)
      {
        p.Parts();
        ghost var t := p.model;
        var left := Piece.BytesOf(p.left);
        if k < left {
          post := WalkLeft(c, st, t, pre, post);
          p := p.left;
        } else {
          result := result + SumOf(m, p.left);
          k := k - left;
          if k <= p.span.length {
            ghost var before, after := WalkHere(c, st, t, pre, post, m);
            var n := CountPrefix(DataOf(p), k, m);
            CountInside(m, c, before, DataOf(p), after, k);
            return result + n;
          }
          result := result + SpanSum(m, p.span);
          k := k - p.span.length;
          pre := WalkRight(c, st, t, pre, post, m);
          p := p.right;
        }
      }
      WalkEnd(c, st, pre, post);
      assert c[..Min(at, |c|)] == pre;
    }

    /** data: the bytes of a node. */
    function DataOf(p: Piece): bytes
      reads this, p
    {
      Data(Stores(), p.span)
    }

    /** The scan inside one piece. */
    static method CountPrefix(s: bytes, k: nat, m: Metric) returns (n: nat)
      requires k <= |s|
      ensures n == Count(m, s[..k])
    {
      n := 0;
      var i := 0;
      while i < k
        invariant 0 <= i <= k && n == Count(m, s[..i])
      {
        CountStep(m, s, i);
        if Hit(m, s[i]) { n := n + 1; }
        i := i + 1;
      }
    }

    /** text_line_of. */
    method LineIndex(at: nat) returns (line: nat)
      requires Valid()
      ensures line == LineOf(Contents(), at)
    {
      line := PrefixMetric(at, Newlines);
    }

    /** text_byte_to_char. */
    method CharIndex(at: nat) returns (ch: nat)
      requires Valid()
      ensures ch == ByteToChar(Contents(), at)
    {
      ch := PrefixMetric(at, Starts);
    }

    /** text_line_start. */
    method LineOffset(line: nat) returns (r: nat)
      requires Valid()
      ensures r == LineStart(Contents(), line)
    {
      hide Piece.Valid, Utf8.Valid, WellFormed, SpansOk, Flat, Size, Lines, Chars, Data, Walk, Count;
      var lines := LineCount();
      if line == 0 { return 0; }
      if line >= lines {
        r := Length();
        return;
      }
      ghost var st, c := Stores(), Contents();
      WalkStart(st, Piece.M(root), Newlines);
      ghost var pre, post: bytes := [], [];
      var p, k: nat, off: nat := root, line, 0;
      while true
        invariant Piece.Ok(p) && Walk(c, st, Piece.M(p), pre, post)
        invariant line == Count(Newlines, pre) + k && off == |pre|
        invariant 1 <= k <= Sum(Newlines, Piece.M(p))
        decreases Piece.M(p)
      {
        if p == null {
          WalkEnd(c, st, pre, post);
          assert false;
        }
        p.Parts();
        ghost var t := p.model;
        var l := Piece.LinesOf(p.left);
        if k <= l {
          post := WalkLeft(c, st, t, pre, post);
          p := p.left;
        } else {
          ghost var before, after := WalkHere(c, st, t, pre, post, Newlines);
          k := k - l;
          off := off + Piece.BytesOf(p.left);
          if k <= p.span.newlines {
            var i := NthNewlineIn(DataOf(p), k);
            assert c[off + i] == DataOf(p)[i];
            CountInside(Newlines, c, before, DataOf(p), after, i + 1);
            AfterNewlineUnique(c, line, off + i + 1, LineStart(c, line));
            return off + i + 1;
          }
          k := k - p.span.newlines;
          off := off + p.span.length;
          pre := WalkRight(c, st, t, pre, post, Newlines);
          p := p.right;
        }
      }
    }

    /** The scan of text_line_start inside one piece. */
    static method NthNewlineIn(s: bytes, k: nat) returns (i: nat)
      requires 1 <= k <= Count(Newlines, s)
      ensures i < |s| && s[i] == LF && Count(Newlines, s[..i + 1]) == k
    {
      i := 0;
      var left := k;
      assert s[..|s|] == s;
      while true
        invariant 0 <= i <= |s| && 1 <= left && Count(Newlines, s[..i]) + left == k
        decreases |s| - i
      {
        if i == |s| { assert false; }
        CountStep(Newlines, s, i);
        if s[i] == LF {
          left := left - 1;
          if left == 0 { return; }
        }
        i := i + 1;
      }
    }

    /** text_char_to_byte. */
    method CharOffset(ch: nat) returns (r: nat)
      requires Valid()
      ensures r == CharToByte(Contents(), ch)
    {
      hide Piece.Valid, Utf8.Valid, WellFormed, SpansOk, Flat, Size, Lines, Chars, Data, Walk, Count;
      ghost var st, c := Stores(), Contents();
      WalkStart(st, Piece.M(root), Starts);
      ghost var pre, post: bytes := [], [];
      var p, k: nat, off: nat := root, ch, 0;
      while p != null
        invariant Piece.Ok(p) && Walk(c, st, Piece.M(p), pre, post)
        invariant ch == Count(Starts, pre) + k && off == |pre|
        invariant post == [] || k < Sum(Starts, Piece.M(p))
        decreases Piece.M(p)
      {
        p.Parts();
        ghost var t := p.model;
        var l := Piece.CharsOf(p.left);
        if k < l {
          post := WalkLeft(c, st, t, pre, post);
          p := p.left;
        } else {
          ghost var before, after := WalkHere(c, st, t, pre, post, Starts);
          k := k - l;
          off := off + Piece.BytesOf(p.left);
          if k <= p.span.chars {
            var i := NthStartIn(DataOf(p), k);
            CountInside(Starts, c, before, DataOf(p), after, i);
            BoundaryInside(c, before, DataOf(p), after, i);
            CountMono(Starts, c, off + i, |c|);
            assert c[..|c|] == c;
            CharAtUnique(c, ch, off + i, CharToByte(c, ch));
            return off + i;
          }
          k := k - p.span.chars;
          off := off + p.span.length;
          pre := WalkRight(c, st, t, pre, post, Starts);
          p := p.right;
        }
      }
      WalkEnd(c, st, pre, post);
      assert post == [];
      assert pre == c && c[..|c|] == c;
      return off;
    }

    /** The scan of text_char_to_byte inside one piece. */
    static method NthStartIn(s: bytes, k: nat) returns (i: nat)
      requires k <= Count(Starts, s)
      ensures CharAt(s, k, i)
    {
      i := 0;
      var left := k;
      while i < |s|
        invariant 0 <= i <= |s| && Count(Starts, s[..i]) + left == k
      {
        CountStep(Starts, s, i);
        if !IsCont(s[i]) {
          if left == 0 { return; }
          left := left - 1;
        }
        i := i + 1;
      }
      assert s[..|s|] == s;
    }

    /** text_next. */
    method Next(at: nat) returns (r: nat)
      requires Valid()
      ensures at >= |Contents()| ==> r == |Contents()|
      ensures at < |Contents()| ==> at < r && NoBoundaryBetween(Contents(), at, r) && IsBoundary(Contents(), r)
    {
      hide Valid, Contents;
      var n := Length();
      if at >= n { return n; }
      r := at + 1;
      while r < n
        invariant at < r <= n
        invariant NoBoundaryBetween(Contents(), at, r)
      {
        var b := ByteAt(r);
        if !IsCont(b) { break; }
        r := r + 1;
      }
    }

    /** text_prev. */
    method Prev(at: nat) returns (r: nat)
      requires Valid()
      ensures var z := Min(at, |Contents()|);
              if z == 0 then r == 0
              else r < z && NoBoundaryBetween(Contents(), r, z) && IsBoundary(Contents(), r)
    {
      hide Valid, Contents, Utf8.Valid;
      ghost var c := Contents();
      FirstBoundary();
      var n := Length();
      var z := Min(at, n);
      if z == 0 { return 0; }
      r := z - 1;
      while r > 0
        invariant r < z
        invariant NoBoundaryBetween(c, r, z)
      {
        var b := ByteAt(r);
        if !IsCont(b) { break; }
        r := r - 1;
      }
    }

    lemma FirstBoundary()
      requires Valid()
      ensures IsBoundary(Contents(), 0)
    {
      ValidText();
      hide Valid, Utf8.Valid;
      if Contents() != [] { ValidHead(Contents()); }
    }

    /** The text is valid UTF-8 at all times. */
    lemma ValidText()
      requires Valid()
      ensures Utf8.Valid(Contents())
    {
      SumsCorrect(Stores(), Piece.M(root));
    }

    /** copy_range: put the bytes at .. at+n below a node into out at pos. */
    method CopyRange(p: Piece?, at: nat, n: nat, out: array<byte>, pos: nat)
      requires Piece.Ok(p) && SpansOk(Stores(), Piece.M(p)) && out !in Piece.R(p)
      requires at + n <= Size(Piece.M(p)) && pos + n <= out.Length
      modifies out
      ensures |Flat(Stores(), Piece.M(p))| == Size(Piece.M(p))
      ensures out[..] == Patched(old(out[..]), pos, Flat(Stores(), Piece.M(p))[at..at + n])
      decreases Piece.M(p), 1
    {
      hide Piece.Valid, SpanOk, SpansOk, Size, Flat, Data, Patched, ClampedSlice;
      ghost var st, o := Stores(), out[..];
      SizeCorrect(st, Piece.M(p));
      PatchEmpty(o, pos);
      if p == null || n == 0 {
        assert Flat(st, Piece.M(p))[at..at] == [];
        EmptyTree(st);
        return;
      }
      p.Parts();
      Locate(st, p.model, 0);
      ghost var l, d, r := Flat(st, p.model.left), DataOf(p), Flat(st, p.model.right);
      NodeFlat(st, p.model);
      CopySteps(l, d, r, at, n);
      var left, span := Piece.BytesOf(p.left), p.span.length;
      var x := CopyLeft(p, at, n, out, pos);
      var y := CopyHere(p, at + x, n - x, out, pos + x);
      PatchTwice(o, pos, ClampedSlice(l, at, at + n), ClampedSlice(d, at - left, at + n - left));
      ghost var ab := ClampedSlice(l, at, at + n) + ClampedSlice(d, at - left, at + n - left);
      var z := n - x - y;
      if z > 0 {
        CopyRange(p.right, at + x + y - left - span, z, out, pos + x + y);
      }
      PatchTwice(o, pos, ab, ClampedSlice(r, at - left - span, at + n - left - span));
    }

    /** The part of copy_range for the left subtree. */
    method CopyLeft(p: Piece, at: nat, n: nat, out: array<byte>, pos: nat) returns (m: nat)
      requires p.Valid() && SpansOk(Stores(), p.model) && out !in p.Repr
      requires at + n <= Size(p.model) && pos + n <= out.Length
      modifies out
      ensures ghost var s := ClampedSlice(Flat(Stores(), p.model.left), at, at + n);
              m == |s| <= n && out[..] == Patched(old(out[..]), pos, s)
      decreases p.model, 0
    {
      hide Piece.Valid, SpanOk, SpansOk, Size, Flat, Data, Patched;
      p.Parts();
      Locate(Stores(), p.model, 0);
      var left := Piece.BytesOf(p.left);
      PatchEmpty(out[..], pos);
      m := 0;
      if at < left {
        m := Min(left - at, n);
        CopyRange(p.left, at, m, out, pos);
      }
    }

    /** The part of copy_range for the node's own bytes. */
    method CopyHere(p: Piece, at: nat, n: nat, out: array<byte>, pos: nat) returns (m: nat)
      requires p.Valid() && SpansOk(Stores(), p.model) && out !in p.Repr
      requires n == 0 || at >= Size(p.model.left)
      requires at + n <= Size(p.model) && pos + n <= out.Length
      modifies out
      ensures ghost var left := Size(p.model.left);
              ghost var s := if n == 0 then [] else ClampedSlice(DataOf(p), at - left, at + n - left);
              m == |s| <= n && out[..] == Patched(old(out[..]), pos, s)
    {
      hide Piece.Valid, SpanOk, SpansOk, Size, Flat, Data, Patched;
      p.Parts();
      Locate(Stores(), p.model, 0);
      var left := Piece.BytesOf(p.left);
      PatchEmpty(out[..], pos);
      m := 0;
      if n > 0 && at < left + p.span.length {
        var k := at - left;
        m := Min(p.span.length - k, n);
        CopyBytes(DataOf(p), k, m, out, pos);
      }
    }

    /** memcpy. */
    static method CopyBytes(s: bytes, k: nat, m: nat, out: array<byte>, pos: nat)
      requires k + m <= |s| && pos + m <= out.Length
      modifies out
      ensures out[..] == Patched(old(out[..]), pos, s[k..k + m])
    {
      forall i | 0 <= i < m {
        out[pos + i] := s[k + i];
      }
    }

    /** text_slice with text_copy: both clamp the range. */
    method Slice(at: nat, n: nat) returns (s: bytes)
      requires Valid()
      ensures s == ClampedSlice(Contents(), at, at + n)
    {
      hide Piece.Valid, SpansOk, Flat, HeapOrdered, Size, Patched;
      var size := Length();
      var a: nat := if at > size then size else at;
      var m: nat := if n > size - a then size - a else n;
      var out := new byte[m];
      SizeCorrect(Stores(), Piece.M(root));
      PatchAll(out[..], Contents()[a..a + m]);
      CopyRange(root, a, m, out, 0);
      s := out[..];
    }
  }

  /** s written over o from offset pos on. */
  function Patched(o: bytes, pos: nat, s: bytes): bytes
    requires pos + |s| <= |o|
  {
    o[..pos] + s + o[pos + |s|..]
  }

  lemma PatchEmpty(o: bytes, pos: nat)
    ensures pos <= |o| ==> Patched(o, pos, []) == o
  {
  }

  lemma PatchAll(o: bytes, s: bytes)
    ensures |o| == |s| ==> Patched(o, 0, s) == s
  {
  }

  lemma PatchTwice(o: bytes, pos: nat, s: bytes, t: bytes)
    requires pos + |s| + |t| <= |o|
    ensures Patched(Patched(o, pos, s), pos + |s|, t) == Patched(o, pos, s + t)
    ensures Patched(o, pos, s + []) == Patched(o, pos, s)
  {
    assert s + [] == s;
  }

  predicate NoBoundaryBetween(s: bytes, a: nat, z: nat) {
    forall j :: a < j < z ==> !IsBoundary(s, j)
  }
}
