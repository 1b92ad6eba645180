/** The smallest replacement that turns one text into another. */
module Diff {
  import opened Bytes
  import opened Utf8
  import opened History

  /** k bytes are common at the front. */
  predicate CommonHead(was: bytes, s: bytes, k: nat) {
    k <= |was| && k <= |s| && was[..k] == s[..k]
  }

  /** t bytes are common at the end, after a head of the given length. */
  predicate CommonTail(was: bytes, s: bytes, head: nat, t: nat) {
    head + t <= |was| && head + t <= |s| && was[|was| - t..] == s[|s| - t..]
  }

  /** head is the longest common prefix rounded down to a code point, tail the
      longest common suffix of the rest so rounded. */
  ghost predicate IsDiff(was: bytes, s: bytes, head: nat, tail: nat) {
    && CommonHead(was, s, head) && IsBoundary(s, head)
    && (forall k: nat :: CommonHead(was, s, k) && IsBoundary(s, k) ==> k <= head)
    && CommonTail(was, s, head, tail) && IsBoundary(s, |s| - tail)
    && (forall t: nat :: CommonTail(was, s, head, t) && IsBoundary(s, |s| - t) ==> t <= tail)
  }

  /** Replacing the middle by the new middle is always legal and gives s. */
  lemma DiffAccepted(was: bytes, s: bytes, head: nat, tail: nat)
    requires Valid(was) && Valid(s) && IsDiff(was, s, head, tail)
    ensures Accepts(was, head, |was| - head - tail, s[head..|s| - tail])
    ensures Splice(was, head, |was| - head - tail, s[head..|s| - tail]) == s
  {
    hide Valid;
    HeadBoundary(was, s, head);
    TailBoundary(was, s, head, tail);
    ValidSlice(s, head, |s| - tail);
    ThreeParts(was, s, head, tail);
  }

  lemma ThreeParts(was: bytes, s: bytes, head: nat, tail: nat)
    requires CommonHead(was, s, head) && CommonTail(was, s, head, tail)
    ensures Splice(was, head, |was| - head - tail, s[head..|s| - tail]) == s
  {
  }

  lemma HeadAgrees(was: bytes, s: bytes, k: nat, i: nat)
    requires CommonHead(was, s, k) && i < k
    ensures was[i] == s[i]
  {
    assert was[..k][i] == s[..k][i];
  }

  lemma TailAgrees(was: bytes, s: bytes, head: nat, t: nat, i: nat)
    requires CommonTail(was, s, head, t) && i < t
    ensures was[|was| - i - 1] == s[|s| - i - 1]
  {
    assert was[|was| - t..][t - i - 1] == s[|s| - t..][t - i - 1];
  }

  /** Where the two texts agree up to a boundary of one, it is a boundary of both. */
  lemma HeadBoundary(was: bytes, s: bytes, k: nat)
    requires Valid(was) && Valid(s) && CommonHead(was, s, k) && IsBoundary(s, k)
    ensures IsBoundary(was, k)
  {
    ValidCut(s, k);
    assert was == s[..k] + was[k..];
    ValidDrop(s[..k], was[k..]);
    if k < |was| { ValidHead(was[k..]); }
  }

  lemma TailBoundary(was: bytes, s: bytes, head: nat, t: nat)
    requires Valid(s) && CommonTail(was, s, head, t) && IsBoundary(s, |s| - t)
    ensures IsBoundary(was, |was| - t)
  {
    if t > 0 {
      assert was[|was| - t..][0] == s[|s| - t..][0];
    }
  }

  /** The scans of editor_set_text. */
  method FindDiff(was: bytes, s: bytes) returns (head: nat, tail: nat)
    requires Valid(was) && Valid(s)
    ensures IsDiff(was, s, head, tail)
  {
    hide Valid;
    head := HeadOf(was, s);
    tail := TailOf(was, s, head);
  }

  method HeadOf(was: bytes, s: bytes) returns (head: nat)
    requires Valid(s)
    ensures CommonHead(was, s, head) && IsBoundary(s, head)
    ensures forall k: nat :: CommonHead(was, s, k) && IsBoundary(s, k) ==> k <= head
  {
    if s != [] { ValidHead(s); }
    hide Valid;
    head := 0;
    while head < |was| && head < |s| && was[head] == s[head]
      invariant CommonHead(was, s, head)
    {
      assert was[..head + 1] == was[..head] + [was[head]] && s[..head + 1] == s[..head] + [s[head]];
      head := head + 1;
    }
    ghost var longest := head;
    forall k: nat | CommonHead(was, s, k)
      ensures k <= longest
    {
      if k > longest { HeadAgrees(was, s, k, longest); }
    }
    while head > 0 && head < |s| && IsCont(s[head])
      invariant head <= longest && CommonHead(was, s, head)
      invariant forall k :: head < k <= longest ==> !IsBoundary(s, k)
    {
      assert was[..head - 1] == was[..head][..head - 1] && s[..head - 1] == s[..head][..head - 1];
      head := head - 1;
    }
  }

  method TailOf(was: bytes, s: bytes, head: nat) returns (tail: nat)
    requires CommonHead(was, s, head)
    ensures CommonTail(was, s, head, tail) && IsBoundary(s, |s| - tail)
    ensures forall t: nat :: CommonTail(was, s, head, t) && IsBoundary(s, |s| - t) ==> t <= tail
  {
    tail := 0;
    while tail < |was| - head && tail < |s| - head && was[|was| - tail - 1] == s[|s| - tail - 1]
      invariant CommonTail(was, s, head, tail)
    {
      var x, y := |was| - tail - 1, |s| - tail - 1;
      assert was[x..] == [was[x]] + was[x + 1..] && s[y..] == [s[y]] + s[y + 1..];
      tail := tail + 1;
    }
    ghost var longest := tail;
    forall t: nat | CommonTail(was, s, head, t)
      ensures t <= longest
    {
      if t > longest { TailAgrees(was, s, head, t, longest); }
    }
    while tail > 0 && IsCont(s[|s| - tail])
      invariant tail <= longest && CommonTail(was, s, head, tail)
      invariant forall p :: |s| - longest <= p < |s| - tail ==> !IsBoundary(s, p)
    {
      assert was[|was| - tail..][1..] == was[|was| - tail + 1..] && s[|s| - tail..][1..] == s[|s| - tail + 1..];
      tail := tail - 1;
    }
  }
}
