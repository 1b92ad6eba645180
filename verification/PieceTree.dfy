/** The piece treap as a value: what split, merge and append_right compute,
    and why the in-order concatenation of the pieces is the text. */
module PieceTree {
  import opened Bytes
  import opened Utf8

  const MAX_PIECE := 4096

  /** The immutable store and the append-only one. */
  datatype Store = Store(original: bytes, added: bytes) {
    function Source(fromAdded: bool): bytes {
      if fromAdded then added else original
    }
  }

  datatype Span = Span(fromAdded: bool, offset: nat, length: nat, newlines: nat, chars: nat)

  datatype Tree = Leaf | Node(left: Tree, span: Span, priority: nat, right: Tree)

  function Data(st: Store, p: Span): bytes {
    var s := st.Source(p.fromAdded);
    if p.offset + p.length <= |s| then s[p.offset..p.offset + p.length] else []
  }

  /** What node() records about a stretch of a store. */
  function MakeSpan(st: Store, fromAdded: bool, offset: nat, length: nat): Span
    requires offset + length <= |st.Source(fromAdded)|
  {
    var s := st.Source(fromAdded)[offset..offset + length];
    Span(fromAdded, offset, length, Count(Newlines, s), Count(Starts, s))
  }

  // ---- Aggregates and contents ---------------------------------------------

  function Size(t: Tree): nat {
    if t.Leaf? then 0 else Size(t.left) + t.span.length + Size(t.right)
  }

  function Lines(t: Tree): nat {
    if t.Leaf? then 0 else Lines(t.left) + t.span.newlines + Lines(t.right)
  }

  function Chars(t: Tree): nat {
    if t.Leaf? then 0 else Chars(t.left) + t.span.chars + Chars(t.right)
  }

  /** In-order concatenation of the pieces. */
  function Flat(st: Store, t: Tree): bytes {
    if t.Leaf? then [] else Flat(st, t.left) + Data(st, t.span) + Flat(st, t.right)
  }

  // ---- The invariant ---------------------------------------------------------

  predicate SpanOk(st: Store, p: Span) {
    && 1 <= p.length <= MAX_PIECE
    && p.offset + p.length <= |st.Source(p.fromAdded)|
    && p == MakeSpan(st, p.fromAdded, p.offset, p.length)
    && Valid(Data(st, p))
  }

  predicate SpansOk(st: Store, t: Tree) {
    t.Leaf? || (SpansOk(st, t.left) && SpanOk(st, t.span) && SpansOk(st, t.right))
  }

  lemma SpansParts(st: Store, t: Tree)
    requires t.Node? && SpansOk(st, t)
    ensures SpansOk(st, t.left) && SpansOk(st, t.right) && SpanOk(st, t.span)
  {
  }

  predicate Below(t: Tree, priority: nat) {
    t.Leaf? || t.priority <= priority
  }

  function Top(t: Tree): nat {
    if t.Leaf? then 0 else t.priority
  }

  predicate HeapOrdered(t: Tree) {
    t.Leaf? || (HeapOrdered(t.left) && HeapOrdered(t.right) && Below(t.left, t.priority) && Below(t.right, t.priority))
  }

  predicate WellFormed(st: Store, t: Tree) {
    SpansOk(st, t) && HeapOrdered(t)
  }

  /** The cached sums are the byte, newline and code-point counts of the text,
      which is valid UTF-8 because every piece is. */
  lemma {:induction false} SumsCorrect(st: Store, t: Tree)
    requires SpansOk(st, t)
    ensures |Flat(st, t)| == Size(t)
    ensures Count(Newlines, Flat(st, t)) == Lines(t)
    ensures Count(Starts, Flat(st, t)) == Chars(t)
    ensures Valid(Flat(st, t))
  {
    hide Valid, Count, Data, SpanOk;
    if t.Leaf? {
      EmptySums();
    } else {
      SumsCorrect(st, t.left);
      SumsCorrect(st, t.right);
      SpanSums(st, t.span);
      var l, d, r := Flat(st, t.left), Data(st, t.span), Flat(st, t.right);
      CountConcat(Newlines, l, d);
      CountConcat(Newlines, l + d, r);
      CountConcat(Starts, l, d);
      CountConcat(Starts, l + d, r);
      ValidConcat(l, d);
      ValidConcat(l + d, r);
    }
  }

  lemma EmptySums()
    ensures Count(Newlines, []) == 0 && Count(Starts, []) == 0 && Valid([])
  {
  }

  lemma SpanSums(st: Store, p: Span)
    requires SpanOk(st, p)
    ensures |Data(st, p)| == p.length && Valid(Data(st, p))
    ensures Count(Newlines, Data(st, p)) == p.newlines && Count(Starts, Data(st, p)) == p.chars
  {
    hide Valid, Count;
  }

  lemma NodeFlat(st: Store, t: Tree)
    requires t.Node?
    ensures Flat(st, t) == Flat(st, t.left) + Data(st, t.span) + Flat(st, t.right)
  {
  }

  lemma EmptyTree(st: Store)
    ensures Flat(st, Leaf) == [] && Size(Leaf) == 0 && WellFormed(st, Leaf)
  {
  }

  /** A node made from a valid stretch cut at a boundary, and what is left. */
  lemma SinglePiece(st: Store, fromAdded: bool, offset: nat, m: nat, n: nat, priority: nat)
    requires 1 <= m <= n && m <= MAX_PIECE && offset + n <= |st.Source(fromAdded)|
    requires var s := st.Source(fromAdded)[offset..offset + n]; Valid(s) && IsBoundary(s, m)
    ensures var src := st.Source(fromAdded);
            var t := Node(Leaf, MakeSpan(st, fromAdded, offset, m), priority, Leaf);
            WellFormed(st, t) && Flat(st, t) == src[offset..offset + m] && Valid(src[offset + m..offset + n])
  {
    hide Valid, Count;
    var src := st.Source(fromAdded);
    var s := src[offset..offset + n];
    FlatSingle(st, MakeSpan(st, fromAdded, offset, m), priority);
    ValidCut(s, m);
    SliceTake(src, offset, offset + n, m);
    SliceDrop(src, offset, offset + n, m);
    var p := MakeSpan(st, fromAdded, offset, m);
    assert Data(st, p) == src[offset..offset + m];
    assert SpanOk(st, p);
    assert SpansOk(st, Node(Leaf, p, priority, Leaf));
    assert HeapOrdered(Node(Leaf, p, priority, Leaf));
    assert Valid(src[offset + m..offset + n]);
  }

  /** Which part of a node holds byte k, and where. */
  lemma Locate(st: Store, t: Tree, k: nat)
    requires t.Node? && SpansOk(st, t)
    ensures SpansOk(st, t.left) && SpansOk(st, t.right)
    ensures Size(t) == Size(t.left) + t.span.length + Size(t.right)
    ensures |Flat(st, t.left)| == Size(t.left) && |Flat(st, t.right)| == Size(t.right)
    ensures |Data(st, t.span)| == t.span.length
    ensures var l, n := Size(t.left), t.span.length;
            && (k < l ==> Flat(st, t)[k] == Flat(st, t.left)[k])
            && (l <= k < l + n ==> Flat(st, t)[k] == Data(st, t.span)[k - l])
            && (l + n <= k < Size(t) ==> Flat(st, t)[k] == Flat(st, t.right)[k - l - n])
  {
    SpanInRange(st, t.span);
    SizeCorrect(st, t.left);
    SizeCorrect(st, t.right);
    hide SpansOk, SpanOk, Data;
    PartsAt(Flat(st, t.left), Data(st, t.span), Flat(st, t.right), k);
  }

  lemma SpanInRange(st: Store, p: Span)
    requires SpanOk(st, p)
    ensures |Data(st, p)| == p.length
    ensures p.offset + p.length <= |st.Source(p.fromAdded)|
  {
  }

  lemma PartsAt(l: bytes, d: bytes, r: bytes, k: nat)
    ensures k < |l| ==> (l + d + r)[k] == l[k]
    ensures |l| <= k < |l| + |d| ==> (l + d + r)[k] == d[k - |l|]
    ensures |l| + |d| <= k < |l + d + r| ==> (l + d + r)[k] == r[k - |l| - |d|]
  {
  }

  // ---- Walking down ---------------------------------------------------------

  function Sum(m: Metric, t: Tree): nat {
    if m == Newlines then Lines(t) else Chars(t)
  }

  function SpanSum(m: Metric, p: Span): nat {
    if m == Newlines then p.newlines else p.chars
  }

  /** t is a subtree of the text c, with pre before it and post after it. */
  predicate Walk(c: bytes, st: Store, t: Tree, pre: bytes, post: bytes) {
    SpansOk(st, t) && Valid(pre) && c == pre + Flat(st, t) + post
  }

  lemma WalkStart(st: Store, t: Tree, m: Metric)
    requires WellFormed(st, t)
    ensures Walk(Flat(st, t), st, t, [], [])
    ensures Valid(Flat(st, t)) && |Flat(st, t)| == Size(t)
    ensures Count(m, Flat(st, t)) == Sum(m, t) && Count(m, []) == 0
  {
    hide Valid, Flat, SpansOk, HeapOrdered;
    SumsCorrect(st, t);
    WalkRoot(st, t);
  }

  lemma WalkRoot(st: Store, t: Tree)
    requires SpansOk(st, t)
    ensures Walk(Flat(st, t), st, t, [], [])
  {
    hide Valid, Flat, SpansOk;
    ValidEmpty();
    assert [] + Flat(st, t) + [] == Flat(st, t);
  }

  lemma ValidEmpty()
    ensures Valid([])
  {
  }

  lemma WalkEnd(c: bytes, st: Store, pre: bytes, post: bytes)
    requires Walk(c, st, Leaf, pre, post)
    ensures c == pre + post && Size(Leaf) == 0 && forall m :: Sum(m, Leaf) == 0
  {
  }

  lemma WalkLeft(c: bytes, st: Store, t: Tree, pre: bytes, post: bytes) returns (post': bytes)
    requires t.Node? && Walk(c, st, t, pre, post)
    ensures Walk(c, st, t.left, pre, post')
  {
    var l, d, r := Flat(st, t.left), Data(st, t.span), Flat(st, t.right);
    post' := d + r + post;
    Regroup(pre, l, d, r, post);
  }

  lemma WalkRight(c: bytes, st: Store, t: Tree, pre: bytes, post: bytes, m: Metric) returns (pre': bytes)
    requires t.Node? && Walk(c, st, t, pre, post)
    ensures Walk(c, st, t.right, pre', post)
    ensures |pre'| == |pre| + Size(t.left) + t.span.length
    ensures Count(m, pre') == Count(m, pre) + Sum(m, t.left) + SpanSum(m, t.span)
    ensures Size(t) == Size(t.left) + t.span.length + Size(t.right)
    ensures Sum(m, t) == Sum(m, t.left) + SpanSum(m, t.span) + Sum(m, t.right)
  {
    var d, post' := WalkHere(c, st, t, pre, post, m);
    var l, r := Flat(st, t.left), Flat(st, t.right);
    pre' := d + Data(st, t.span);
    Regroup(pre, l, Data(st, t.span), r, post);
    ValidConcat(d, Data(st, t.span));
    CountConcat(m, d, Data(st, t.span));
  }

  /** The piece of the node itself, between before and after. */
  lemma WalkHere(c: bytes, st: Store, t: Tree, pre: bytes, post: bytes, m: Metric) returns (before: bytes, after: bytes)
    requires t.Node? && Walk(c, st, t, pre, post)
    ensures c == before + Data(st, t.span) + after && Valid(before)
    ensures before == pre + Flat(st, t.left)
    ensures |before| == |pre| + Size(t.left) && |Data(st, t.span)| == t.span.length
    ensures Count(m, before) == Count(m, pre) + Sum(m, t.left)
    ensures SpanOk(st, t.span) && Count(m, Data(st, t.span)) == SpanSum(m, t.span)
  {
    hide Valid, Count;
    SumsCorrect(st, t.left);
    var l, d, r := Flat(st, t.left), Data(st, t.span), Flat(st, t.right);
    before, after := pre + l, r + post;
    Regroup(pre, l, d, r, post);
    ValidConcat(pre, l);
    CountConcat(m, pre, l);
  }

  lemma Regroup(pre: bytes, l: bytes, d: bytes, r: bytes, post: bytes)
    ensures pre + (l + d + r) + post == pre + l + (d + r + post)
    ensures pre + (l + d + r) + post == pre + l + d + (r + post)
    ensures pre + (l + d + r) + post == pre + l + d + r + post
  {
  }

  lemma CountInside(m: Metric, c: bytes, pre: bytes, d: bytes, post: bytes, k: nat)
    requires c == pre + d + post && k <= |d|
    ensures Count(m, c[..|pre| + k]) == Count(m, pre) + Count(m, d[..k])
  {
    assert c[..|pre| + k] == pre + d[..k];
    CountConcat(m, pre, d[..k]);
  }

  /** A boundary of a piece is a boundary of the text: what follows the piece
      is valid, so it cannot begin inside a code point. */
  lemma BoundaryInside(c: bytes, before: bytes, d: bytes, after: bytes, i: nat)
    requires c == before + d + after && Valid(c) && Valid(before) && Valid(d)
    requires IsBoundary(d, i)
    ensures IsBoundary(c, |before| + i)
  {
    hide Valid;
    ValidConcat(before, d);
    ValidDrop(before + d, after);
    if i < |d| {
      assert c[|before| + i] == d[i];
    } else if after != [] {
      ValidHead(after);
      assert c[|before| + i] == after[0];
    }
  }

  function ClampedSlice(s: bytes, a: int, z: int): bytes {
    var x := if a < 0 then 0 else if a > |s| then |s| else a;
    var y := if z < x then x else if z > |s| then |s| else z;
    s[x..y]
  }

  /** A range of three parts is the ranges of the parts. */
  lemma CopyParts(l: bytes, d: bytes, r: bytes, at: nat, n: nat)
    requires at + n <= |l| + |d| + |r|
    ensures (l + d + r)[at..at + n]
            == ClampedSlice(l, at, at + n) + ClampedSlice(d, at - |l|, at + n - |l|)
                + ClampedSlice(r, at - |l| - |d|, at + n - |l| - |d|)
  {
    ClampedConcat(l, d, at, at + n);
    ClampedConcat(l + d, r, at, at + n);
  }

  /** Copying part by part, each from where the one before it ended. */
  lemma CopySteps(l: bytes, d: bytes, r: bytes, at: nat, n: nat)
    requires at + n <= |l| + |d| + |r|
    ensures var a, b, c := ClampedSlice(l, at, at + n), ClampedSlice(d, at - |l|, at + n - |l|),
                           ClampedSlice(r, at - |l| - |d|, at + n - |l| - |d|);
            var x, y := |a|, |b|;
            && (l + d + r)[at..at + n] == a + b + c && x + y <= n
            && (x == n || at + x >= |l|)
            && b == (if n == x then [] else ClampedSlice(d, at + x - |l|, at + n - |l|))
            && (x + y == n || at + x + y >= |l| + |d|)
            && c == (if n == x + y then [] else r[at + x + y - |l| - |d|..at + n - |l| - |d|])
  {
    CopyParts(l, d, r, at, n);
    SkipFirst(l, d, at, n);
    SkipSecond(l, d, r, at, n);
  }

  lemma ClampedConcat(a: bytes, b: bytes, x: int, z: int)
    requires x <= z
    ensures ClampedSlice(a + b, x, z) == ClampedSlice(a, x, z) + ClampedSlice(b, x - |a|, z - |a|)
  {
  }

  /** Where the copy stands after the left part ... */
  lemma SkipFirst(l: bytes, d: bytes, at: nat, n: nat)
    ensures var x := |ClampedSlice(l, at, at + n)|;
            && x <= n
            && (x == n || at + x >= |l|)
            && ClampedSlice(d, at - |l|, at + n - |l|)
               == if n == x then [] else ClampedSlice(d, at + x - |l|, at + n - |l|)
  {
  }

  /** ... and after the node's own bytes. */
  lemma SkipSecond(l: bytes, d: bytes, r: bytes, at: nat, n: nat)
    requires at + n <= |l| + |d| + |r|
    ensures var x := |ClampedSlice(l, at, at + n)|;
            var y := |ClampedSlice(d, at - |l|, at + n - |l|)|;
            var k := at + x + y - |l| - |d|;
            && x + y <= n
            && (x + y == n || 0 <= k)
            && ClampedSlice(r, at - |l| - |d|, at + n - |l| - |d|)
               == if n == x + y then [] else r[k..k + n - x - y]
  {
    var ld := |l| + |d|;
    if at + n <= ld {
      assert ClampedSlice(r, at - |l| - |d|, at + n - |l| - |d|) == [];
    } else if at <= |l| {
      assert ClampedSlice(d, at - |l|, at + n - |l|) == d;
    } else {
      assert ClampedSlice(l, at, at + n) == [];
    }
  }

  // ---- merge ----------------------------------------------------------------

  function Merge(a: Tree, b: Tree): Tree {
    if a.Leaf? then b
    else if b.Leaf? then a
    else if a.priority > b.priority then a.(right := Merge(a.right, b))
    else b.(left := Merge(a, b.left))
  }

  lemma {:induction false} MergeFlat(st: Store, a: Tree, b: Tree)
    ensures Flat(st, Merge(a, b)) == Flat(st, a) + Flat(st, b)
  {
    if a.Leaf? || b.Leaf? {
    } else if a.priority > b.priority {
      MergeFlat(st, a.right, b);
    } else {
      MergeFlat(st, a, b.left);
    }
  }

  lemma {:induction false} MergeSpans(st: Store, a: Tree, b: Tree)
    requires SpansOk(st, a) && SpansOk(st, b)
    ensures SpansOk(st, Merge(a, b))
  {
    if a.Leaf? || b.Leaf? {
    } else if a.priority > b.priority {
      MergeSpans(st, a.right, b);
    } else {
      MergeSpans(st, a, b.left);
    }
  }

  lemma {:induction false} MergeHeap(a: Tree, b: Tree, p: nat)
    requires HeapOrdered(a) && HeapOrdered(b) && Below(a, p) && Below(b, p)
    ensures HeapOrdered(Merge(a, b)) && Below(Merge(a, b), p)
  {
    if a.Leaf? || b.Leaf? {
    } else if a.priority > b.priority {
      MergeHeap(a.right, b, a.priority);
    } else {
      MergeHeap(a, b.left, b.priority);
    }
  }

  lemma MergeKeeps(st: Store, a: Tree, b: Tree)
    requires WellFormed(st, a) && WellFormed(st, b)
    ensures WellFormed(st, Merge(a, b))
  {
    MergeSpans(st, a, b);
    MergeHeap(a, b, Top(a) + Top(b));
  }

  // ---- split ----------------------------------------------------------------

  function Split(st: Store, t: Tree, at: nat): (Tree, Tree) {
    if t.Leaf? then (Leaf, Leaf)
    else
      var l := Size(t.left);
      var n := t.span.length;
      if at < l then
        var (a, b) := Split(st, t.left, at);
        (a, t.(left := b))
      else if at > l + n then
        var (a, b) := Split(st, t.right, at - l - n);
        (t.(right := a), b)
      else if at == l then (t.left, t.(left := Leaf))
      else if at == l + n then (t.(right := Leaf), t.right)
      else
        var (x, y) := CutSpan(st, t.span, at - l);
        (Merge(t.left, Node(Leaf, x, t.priority, Leaf)), Merge(Node(Leaf, y, t.priority, Leaf), t.right))
  }

  /** The two nodes that replace a piece split in its middle. */
  function CutSpan(st: Store, p: Span, k: nat): (Span, Span)
    requires k <= p.length
  {
    if p.offset + p.length <= |st.Source(p.fromAdded)| then
      (MakeSpan(st, p.fromAdded, p.offset, k), MakeSpan(st, p.fromAdded, p.offset + k, p.length - k))
    else (p, p)
  }

  lemma CutSpanData(st: Store, p: Span, k: nat)
    requires SpanOk(st, p) && 0 < k < p.length
    ensures var (x, y) := CutSpan(st, p, k);
            && x == MakeSpan(st, p.fromAdded, p.offset, k) && Data(st, x) == Data(st, p)[..k]
            && y == MakeSpan(st, p.fromAdded, p.offset + k, p.length - k) && Data(st, y) == Data(st, p)[k..]
  {
    hide Valid, Count;
    var s := st.Source(p.fromAdded);
    SliceTake(s, p.offset, p.offset + p.length, k);
    SliceDrop(s, p.offset, p.offset + p.length, k);
  }

  lemma CutSpanOk(st: Store, p: Span, k: nat)
    requires SpanOk(st, p) && 0 < k < p.length && IsBoundary(Data(st, p), k)
    ensures var (x, y) := CutSpan(st, p, k);
            SpanOk(st, x) && SpanOk(st, y)
  {
    hide Valid, Count;
    CutSpanData(st, p, k);
    ValidCut(Data(st, p), k);
  }

  lemma RegroupLeft(a: bytes, b: bytes, c: bytes, d: bytes)
    ensures a + (b + c + d) == (a + b) + c + d
  {
  }

  lemma RegroupRight(a: bytes, b: bytes, c: bytes, d: bytes)
    ensures (a + b + c) + d == a + b + (c + d)
  {
  }

  lemma BoundaryInParts(a: bytes, b: bytes, c: bytes, at: nat)
    requires IsBoundary(a + b + c, at)
    ensures at < |a| ==> IsBoundary(a, at)
    ensures |a| <= at < |a| + |b| ==> IsBoundary(b, at - |a|)
    ensures at >= |a| + |b| ==> IsBoundary(c, at - |a| - |b|)
  {
  }

  lemma {:induction false} SizeCorrect(st: Store, t: Tree)
    requires SpansOk(st, t)
    ensures |Flat(st, t)| == Size(t)
  {
    if t.Node? {
      SizeCorrect(st, t.left);
      SizeCorrect(st, t.right);
    }
  }

  lemma {:induction false} SplitFlat(st: Store, t: Tree, at: nat)
    requires SpansOk(st, t) && at <= Size(t)
    ensures var (a, b) := Split(st, t, at);
            Flat(st, a) + Flat(st, b) == Flat(st, t) && |Flat(st, a)| == at
  {
    hide SpanOk, CutSpan, Data, Merge;
    if t.Node? {
      SizeCorrect(st, t.left);
      SpanInRange(st, t.span);
      var l, n := Size(t.left), t.span.length;
      var fl, d, fr := Flat(st, t.left), Data(st, t.span), Flat(st, t.right);
      if at < l {
        SplitFlat(st, t.left, at);
        var (a, b) := Split(st, t.left, at);
        RegroupLeft(Flat(st, a), Flat(st, b), d, fr);
      } else if at > l + n {
        SplitFlat(st, t.right, at - l - n);
        var (a, b) := Split(st, t.right, at - l - n);
        RegroupRight(fl, d, Flat(st, a), Flat(st, b));
      } else if l < at < l + n {
        SplitFlatMiddle(st, t, at - l);
      }
    }
  }

  lemma FlatSingle(st: Store, p: Span, priority: nat)
    ensures Flat(st, Node(Leaf, p, priority, Leaf)) == Data(st, p)
  {
  }

  lemma SplitFlatMiddle(st: Store, t: Tree, k: nat)
    requires t.Node? && SpansOk(st, t) && 0 < k < t.span.length
    ensures var (x, y) := CutSpan(st, t.span, k);
            var a, b := Merge(t.left, Node(Leaf, x, t.priority, Leaf)), Merge(Node(Leaf, y, t.priority, Leaf), t.right);
            Flat(st, a) + Flat(st, b) == Flat(st, t) && |Flat(st, a)| == Size(t.left) + k
  {
    hide Merge, CutSpan;
    SizeCorrect(st, t.left);
    CutSpanData(st, t.span, k);
    var (x, y) := CutSpan(st, t.span, k);
    var x', y' := Node(Leaf, x, t.priority, Leaf), Node(Leaf, y, t.priority, Leaf);
    MergeFlat(st, t.left, x');
    MergeFlat(st, y', t.right);
    FlatSingle(st, x, t.priority);
    FlatSingle(st, y, t.priority);
    PartsMiddle(Flat(st, t.left), Data(st, t.span), Flat(st, t.right), k);
  }

  lemma PartsMiddle(l: bytes, d: bytes, r: bytes, k: nat)
    requires k <= |d|
    ensures (l + d[..k]) + (d[k..] + r) == l + d + r
  {
  }

  lemma {:induction false} SplitSpans(st: Store, t: Tree, at: nat)
    requires SpansOk(st, t) && at <= Size(t) && IsBoundary(Flat(st, t), at)
    ensures var (a, b) := Split(st, t, at);
            SpansOk(st, a) && SpansOk(st, b)
  {
    if t.Node? {
      SizeCorrect(st, t.left);
      BoundaryInParts(Flat(st, t.left), Data(st, t.span), Flat(st, t.right), at);
      var l, n := Size(t.left), t.span.length;
      if at < l {
        SplitSpans(st, t.left, at);
      } else if at > l + n {
        SplitSpans(st, t.right, at - l - n);
      } else if l < at < l + n {
        CutSpanOk(st, t.span, at - l);
        var (x, y) := CutSpan(st, t.span, at - l);
        MergeSpans(st, t.left, Node(Leaf, x, t.priority, Leaf));
        MergeSpans(st, Node(Leaf, y, t.priority, Leaf), t.right);
      }
    }
  }

  lemma {:induction false} SplitHeap(st: Store, t: Tree, at: nat, p: nat)
    requires HeapOrdered(t) && Below(t, p)
    ensures var (a, b) := Split(st, t, at);
            HeapOrdered(a) && HeapOrdered(b) && Below(a, p) && Below(b, p)
  {
    if t.Node? {
      hide Size, Merge, CutSpan;
      assert Below(t.left, t.priority) && Below(t.right, t.priority);
      assert HeapOrdered(t.left) && HeapOrdered(t.right);
      var l, n := Size(t.left), t.span.length;
      if at < l {
        SplitHeap(st, t.left, at, t.priority);
      } else if at > l + n {
        SplitHeap(st, t.right, at - l - n, t.priority);
      } else if l < at < l + n {
        var (x, y) := CutSpan(st, t.span, at - l);
        MergeHeap(t.left, Node(Leaf, x, t.priority, Leaf), p);
        MergeHeap(Node(Leaf, y, t.priority, Leaf), t.right, p);
      } else if at == l {
        assert Split(st, t, at) == (t.left, t.(left := Leaf));
      } else {
        assert Split(st, t, at) == (t.(right := Leaf), t.right);
      }
    }
  }

  /** Splitting a well-formed treap at a code-point boundary cuts the text
      there and gives two well-formed treaps. */
  lemma SplitCorrect(st: Store, t: Tree, at: nat)
    requires WellFormed(st, t) && at <= Size(t) && IsBoundary(Flat(st, t), at)
    ensures var (a, b) := Split(st, t, at);
            && WellFormed(st, a) && WellFormed(st, b)
            && |Flat(st, t)| == Size(t)
            && Flat(st, a) == Flat(st, t)[..at] && Flat(st, b) == Flat(st, t)[at..]
  {
    SumsCorrect(st, t);
    SplitFlat(st, t, at);
    SplitSpans(st, t, at);
    SplitHeap(st, t, at, Top(t));
    var (a, b) := Split(st, t, at);
    assert Flat(st, t)[..at] == Flat(st, a);
  }

  // ---- append_right -----------------------------------------------------------

  function Grow(st: Store, s: bytes): Store {
    st.(added := st.added + s)
  }

  lemma GrowSpan(st: Store, s: bytes, p: Span)
    requires SpanOk(st, p)
    ensures SpanOk(Grow(st, s), p) && Data(Grow(st, s), p) == Data(st, p)
  {
    hide Valid, Count;
    PrefixSlice(st.Source(p.fromAdded), Grow(st, s).Source(p.fromAdded), p.offset, p.offset + p.length);
  }

  /** Growing the added store leaves every existing piece as it was. */
  lemma {:induction false} GrowKeeps(st: Store, s: bytes, t: Tree)
    requires SpansOk(st, t)
    ensures SpansOk(Grow(st, s), t) && Flat(Grow(st, s), t) == Flat(st, t)
  {
    if t.Node? {
      GrowKeeps(st, s, t.left);
      GrowSpan(st, s, t.span);
      GrowKeeps(st, s, t.right);
    }
  }

  /** append_right: extend the last piece when it ends where the new bytes
      were stored and stays within the cap; otherwise leave the tree alone. */
  function AppendRight(t: Tree, offset: nat, s: bytes): (r: (bool, Tree))
    ensures !r.0 ==> r.1 == t
  {
    if t.Leaf? then (false, t)
    else if t.right.Node? then
      var (ok, r) := AppendRight(t.right, offset, s);
      (ok, if ok then t.(right := r) else t)
    else if !t.span.fromAdded || t.span.offset + t.span.length != offset then (false, t)
    else if t.span.length + |s| > MAX_PIECE then (false, t)
    else (true, t.(span := Extended(t.span, s)))
  }

  function Extended(p: Span, s: bytes): Span {
    p.(length := p.length + |s|, newlines := p.newlines + Count(Newlines, s), chars := p.chars + Count(Starts, s))
  }

  predicate Extendable(st: Store, p: Span, s: bytes) {
    p.fromAdded && p.offset + p.length == |st.added| && p.length + |s| <= MAX_PIECE
  }

  lemma ExtendedData(st: Store, p: Span, s: bytes)
    requires Extendable(st, p, s)
    ensures Data(Grow(st, s), Extended(p, s)) == Data(st, p) + s
    ensures (st.added + s)[p.offset..p.offset + p.length + |s|] == Data(st, p) + s
  {
  }

  lemma ExtendedOk(st: Store, p: Span, s: bytes)
    requires Extendable(st, p, s) && SpanOk(st, p) && Valid(s)
    ensures SpanOk(Grow(st, s), Extended(p, s))
  {
    hide Valid, Count;
    var d := Data(st, p);
    ExtendedData(st, p, s);
    CountConcat(Newlines, d, s);
    CountConcat(Starts, d, s);
    ValidConcat(d, s);
  }

  lemma {:induction false} AppendRightFlat(st: Store, t: Tree, s: bytes)
    requires SpansOk(st, t)
    ensures var (ok, r) := AppendRight(t, |st.added|, s);
            ok ==> Flat(Grow(st, s), r) == Flat(st, t) + s
  {
    hide SpanOk, Data, Extended;
    if t.Node? && AppendRight(t, |st.added|, s).0 {
      GrowKeeps(st, s, t.left);
      GrowSpan(st, s, t.span);
      var l, d := Flat(st, t.left), Data(st, t.span);
      if t.right.Node? {
        AppendRightFlat(st, t.right, s);
        RegroupRight(l, d, Flat(st, t.right), s);
      } else {
        ExtendedData(st, t.span, s);
        RegroupRight(l, d, [], s);
      }
    }
  }

  lemma {:induction false} AppendRightSpans(st: Store, t: Tree, s: bytes)
    requires SpansOk(st, t) && Valid(s)
    ensures var (ok, r) := AppendRight(t, |st.added|, s);
            ok ==> SpansOk(Grow(st, s), r)
  {
    hide SpanOk, Extended;
    if t.Node? && AppendRight(t, |st.added|, s).0 {
      GrowKeeps(st, s, t.left);
      GrowSpan(st, s, t.span);
      if t.right.Node? {
        AppendRightSpans(st, t.right, s);
      } else {
        ExtendedOk(st, t.span, s);
      }
    }
  }

  lemma {:induction false} AppendRightHeap(t: Tree, offset: nat, s: bytes)
    requires HeapOrdered(t)
    ensures var r := AppendRight(t, offset, s).1;
            HeapOrdered(r) && r.Node? == t.Node? && Top(r) == Top(t)
  {
    if t.Node? && t.right.Node? {
      AppendRightHeap(t.right, offset, s);
    }
  }

  // ---- The two edits ------------------------------------------------------------

  function Inserted(a: Tree, b: Tree, offset: nat, s: bytes, piece: Tree): Tree {
    var (ok, a') := AppendRight(a, offset, s);
    if ok then Merge(a', b) else Merge(Merge(a, piece), b)
  }

  /** text_insert: the halves, with the last piece of the first one extended
      or else any tree for the freshly stored bytes between them. */
  lemma InsertCorrect(st: Store, t: Tree, at: nat, s: bytes, piece: Tree)
    requires WellFormed(st, t) && IsBoundary(Flat(st, t), at) && Valid(s)
    requires AppendRight(Split(st, t, at).0, |st.added|, s).0
             || (WellFormed(Grow(st, s), piece) && Flat(Grow(st, s), piece) == s)
    ensures var st' := Grow(st, s);
            var (a, b) := Split(st', t, at);
            var r := Inserted(a, b, |st.added|, s, piece);
            WellFormed(st', r) && Flat(st', r) == Splice(Flat(st, t), at, 0, s)
  {
    hide SpansOk, HeapOrdered, Split, Merge, Flat, AppendRight;
    var st' := Grow(st, s);
    SizeCorrect(st, t);
    SplitCorrect(st, t, at);
    SplitGrow(st, s, t, at);
    var (a, b) := Split(st, t, at);
    GrowKeeps(st, s, a);
    GrowKeeps(st, s, b);
    var (ok, a') := AppendRight(a, |st.added|, s);
    if ok {
      AppendRightFlat(st, a, s);
      AppendRightSpans(st, a, s);
      AppendRightHeap(a, |st.added|, s);
      MergeFlat(st', a', b);
      MergeKeeps(st', a', b);
    } else {
      MergeFlat(st', a, piece);
      MergeKeeps(st', a, piece);
      MergeFlat(st', Merge(a, piece), b);
      MergeKeeps(st', Merge(a, piece), b);
    }
  }

  lemma {:induction false} SplitGrow(st: Store, s: bytes, t: Tree, at: nat)
    requires SpansOk(st, t)
    ensures Split(Grow(st, s), t, at) == Split(st, t, at)
  {
    if t.Node? {
      var l, n := Size(t.left), t.span.length;
      if at < l {
        SplitGrow(st, s, t.left, at);
      } else if at > l + n {
        SplitGrow(st, s, t.right, at - l - n);
      } else if l < at < l + n {
        CutGrow(st, s, t.span, at - l);
      }
    }
  }

  lemma CutGrow(st: Store, s: bytes, p: Span, k: nat)
    requires SpanOk(st, p) && k <= p.length
    ensures CutSpan(Grow(st, s), p, k) == CutSpan(st, p, k)
  {
    hide Valid, Count;
    var x, y := st.Source(p.fromAdded), Grow(st, s).Source(p.fromAdded);
    PrefixSlice(x, y, p.offset, p.offset + k);
    PrefixSlice(x, y, p.offset + k, p.offset + p.length);
  }

  lemma DeleteCorrect(st: Store, t: Tree, at: nat, n: nat)
    requires WellFormed(st, t) && at + n <= Size(t)
    requires IsBoundary(Flat(st, t), at) && IsBoundary(Flat(st, t), at + n)
    ensures var (a, b) := Split(st, t, at);
            var r := Merge(a, Split(st, b, n).1);
            && WellFormed(st, r)
            && |Flat(st, t)| == Size(t)
            && Flat(st, r) == Splice(Flat(st, t), at, n, [])
  {
    hide SpansOk, HeapOrdered, Split, Merge, Flat;
    SplitCorrect(st, t, at);
    var (a, b) := Split(st, t, at);
    SizeCorrect(st, b);
    var f := Flat(st, t);
    SplitCorrect(st, b, n);
    var c := Split(st, b, n).1;
    MergeFlat(st, a, c);
    MergeKeeps(st, a, c);
    assert f[at..][n..] == f[at + n..];
  }
}
