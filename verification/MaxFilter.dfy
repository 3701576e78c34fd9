/**
  Sliding maximum with a monotone queue (internal/std-t86/dsp/slots.go,
  `maximumFilter1D`).
  */
module MaxFilter {

  function Lo(i: int, r: int): int { if i - r > 0 then i - r else 0 }

  function Hi(n: int, i: int, r: int): int { if i + r < n - 1 then i + r else n - 1 }

  /** `m` is the maximum of `v[lo..hi + 1]`. */
  ghost predicate IsMax(v: seq<real>, lo: int, hi: int, m: real)
    requires 0 <= lo && hi < |v|
  {
    && (forall j | lo <= j <= hi :: v[j] <= m)
    && (exists j :: lo <= j <= hi && v[j] == m)
  }

  /** Increasing indices below `next`, decreasing values, and for every index from `lo` a later one at least as large. */
  ghost predicate Deque(v: seq<real>, dq: seq<nat>, lo: int, next: int)
    requires 0 <= next <= |v|
  {
    && (forall a | 0 <= a < |dq| :: dq[a] < next)
    && (forall a, b | 0 <= a < b < |dq| :: dq[a] < dq[b] && v[dq[a]] > v[dq[b]])
    && (forall j | lo <= j < next :: Dominated(v, dq, j))
  }

  ghost predicate Dominated(v: seq<real>, dq: seq<nat>, j: int)
    requires j < |v|
  {
    0 <= j && exists a :: Covers(v, dq, a, j)
  }

  ghost predicate Covers(v: seq<real>, dq: seq<nat>, a: int, j: int)
    requires 0 <= j < |v|
  {
    0 <= a < |dq| && j <= dq[a] < |v| && v[j] <= v[dq[a]]
  }

  /** One index enters at the back. */
  method PushBack(v: seq<real>, dq: seq<nat>, ghost lo: int, next: nat) returns (q: seq<nat>)
    requires next < |v| && 0 <= lo && Deque(v, dq, lo, next)
    ensures Deque(v, q, lo, next + 1) && |q| > 0
  {
    q := dq;
    while |q| > 0 && v[q[|q| - 1]] <= v[next]
      invariant |q| <= |dq| && q == dq[..|q|]
      invariant |q| < |dq| ==> v[dq[|q|]] <= v[next]
    {
      q := q[..|q| - 1];
    }
    PushCovers(v, dq, lo, next, |q|);
    q := q + [next];
  }

  /** The entering index dominates every one it drove out. */
  lemma PushCovers(v: seq<real>, dq: seq<nat>, lo: int, next: nat, keep: nat)
    requires next < |v| && 0 <= lo && Deque(v, dq, lo, next) && keep <= |dq|
    requires keep < |dq| ==> v[dq[keep]] <= v[next]
    ensures forall j | lo <= j < next + 1 :: Dominated(v, dq[..keep] + [next], j)
  {
    var q := dq[..keep] + [next];
    forall j | lo <= j < next + 1
      ensures Dominated(v, q, j)
    {
      if j == next {
        assert Covers(v, q, keep, j);
      } else {
        assert Dominated(v, dq, j);
        var a :| Covers(v, dq, a, j);
        assert a >= keep ==> v[dq[a]] <= v[dq[keep]];
        assert Covers(v, q, if a < keep then a else keep, j);
      }
    }
  }

  /** Indices before the window leave at the front. */
  method PopFront(v: seq<real>, dq: seq<nat>, ghost lo0: int, lo: int, next: int) returns (q: seq<nat>)
    requires 0 <= lo0 <= lo < next <= |v| && Deque(v, dq, lo0, next)
    ensures Deque(v, q, lo, next) && |q| > 0 && IsMax(v, lo, next - 1, v[q[0]])
  {
    q := dq;
    ghost var c := 0;
    while |q| > 0 && q[0] < lo
      invariant 0 <= c <= |dq| && q == dq[c..] && forall a | 0 <= a < c :: dq[a] < lo
    {
      q := q[1..];
      c := c + 1;
    }
    forall j | lo <= j < next
      ensures Dominated(v, q, j)
    {
      assert Dominated(v, dq, j);
      var a :| Covers(v, dq, a, j);
      assert a >= c;
      assert Covers(v, q, a - c, j);
    }
    assert Dominated(v, q, lo);
    forall j | lo <= j <= next - 1
      ensures v[j] <= v[q[0]]
    {
      assert Dominated(v, q, j);
      var b :| Covers(v, q, b, j);
      assert b == 0 || v[q[0]] > v[q[b]];
    }
  }

  /** The monotone-deque sliding maximum is the maximum over `i - r .. i + r`, cut at the ends. */
  method MaximumFilter1D(v: seq<real>, r: nat) returns (out: seq<real>)
    ensures |out| == |v|
    ensures forall i | 0 <= i < |v| :: IsMax(v, Lo(i, r), Hi(|v|, i, r), out[i])
  {
    var n := |v|;
    out := [];
    var dq: seq<nat> := [];
    var next := 0;
    var i := 0;
    while i < n
      invariant 0 <= i <= n && |out| == i && 0 <= next <= n
      invariant next == if i == 0 then 0 else Hi(n, i - 1, r) + 1
      invariant Deque(v, dq, Lo(i - 1, r), next)
      invariant forall j | 0 <= j < i :: IsMax(v, Lo(j, r), Hi(n, j, r), out[j])
    {
      var hi := Hi(n, i, r);
      while next <= hi
        invariant 0 <= next <= hi + 1 && Deque(v, dq, Lo(i - 1, r), next)
      {
        dq := PushBack(v, dq, Lo(i - 1, r), next);
        next := next + 1;
      }
      var lo := Lo(i, r);
      dq := PopFront(v, dq, Lo(i - 1, r), lo, next);
      out := out + [v[dq[0]]];
      i := i + 1;
    }
  }
}
