/**
  Smoothing the voice decision over neighbouring bursts of the same slot
  (internal/std-t86/decoder/voice.go).

  Offline, a burst is voice if most of the votes are: its own, those of up to
  `win` earlier and up to `win` later bursts of the same ring, the later ones
  within a horizon.  The streaming smoother decides as soon as no later burst can
  change the vote.
  */
module Voice {
  import opened Rounding

  const SLOT := 1200

  /** A traffic burst; `voice` tells whether its type is a voice type. */
  datatype TchBurst = TchBurst(pos: int, voice: bool)

  datatype Decided = Decided(burst: TchBurst, isVoice: bool)

  function Horizon(win: nat): nat { (6 * win + 2) * SLOT }

  // ---------------------------------------------------------------- offline

  /** Ring after moving `delta` samples on from ring `r`. */
  function MoveRing(r: nat, delta: int): nat {
    (r + RoundHalfEven(delta as real / SLOT as real)) % 6
  }

  function RingAt(b: seq<TchBurst>, i: nat): nat
    requires i < |b|
  {
    if i == 0 then 0 else MoveRing(RingAt(b, i - 1), b[i].pos - b[i - 1].pos)
  }

  /** Votes of ring `r` among the bursts before `i`. */
  function Past(b: seq<TchBurst>, i: nat, r: nat): seq<bool>
    requires i <= |b|
  {
    if i == 0 then []
    else Past(b, i - 1, r) + if RingAt(b, i - 1) == r then [b[i - 1].voice] else []
  }

  /** Burst `j` may vote for burst `i`. */
  predicate Mate(win: nat, b: seq<TchBurst>, i: nat, j: nat)
    requires i < |b| && j < |b|
  {
    RingAt(b, j) == RingAt(b, i) && b[j].pos <= b[i].pos + Horizon(win)
  }

  /** Votes of the mates of `i` among the bursts after it and before `n`. */
  function Later(win: nat, b: seq<TchBurst>, i: nat, n: nat): seq<bool>
    requires i < |b| && n <= |b|
  {
    if n <= i + 1 then []
    else Later(win, b, i, n - 1) + if Mate(win, b, i, n - 1) then [b[n - 1].voice] else []
  }

  function First(s: seq<bool>, win: nat): seq<bool> { if |s| <= win then s else s[..win] }

  function Last(s: seq<bool>, win: nat): seq<bool> { if |s| <= win then s else s[|s| - win..] }

  function Yes(s: seq<bool>): nat { if s == [] then 0 else Yes(s[..|s| - 1]) + if s[|s| - 1] then 1 else 0 }

  /** More than half of the votes. */
  predicate Majority(before: seq<bool>, own: bool, after: seq<bool>) {
    2 * (Yes(before) + (if own then 1 else 0) + Yes(after)) > |before| + 1 + |after|
  }

  predicate Vote(win: nat, b: seq<TchBurst>, i: nat)
    requires i < |b|
  {
    Majority(Last(Past(b, i, RingAt(b, i)), win), b[i].voice, First(Later(win, b, i, |b|), win))
  }

  /** Every burst once, in order, with the vote over the whole sequence. */
  function Offline(win: nat, b: seq<TchBurst>): (r: seq<Decided>)
    ensures |r| == |b|
  {
    seq(|b|, i requires 0 <= i < |b| => Decided(b[i], Vote(win, b, i)))
  }

  // ---------------------------------------------------------------- who votes, and what is decided

  /** Slots from burst `i` to burst `j`, each step rounded. */
  function SlotsBetween(b: seq<TchBurst>, i: nat, j: nat): int
    requires i <= j < |b|
  {
    if i == j then 0
    else SlotsBetween(b, i, j - 1) + RoundHalfEven((b[j].pos - b[j - 1].pos) as real / 1200.0)
  }

  /** Both bursts stand in the same place of the six-slot frame. */
  predicate SameRing(b: seq<TchBurst>, i: nat, j: nat)
    requires i < |b| && j < |b|
  {
    if i <= j then SlotsBetween(b, i, j) % 6 == 0 else SlotsBetween(b, j, i) % 6 == 0
  }

  /** A later burst of the same ring that is not too far away. */
  predicate Near(win: nat, b: seq<TchBurst>, i: nat, j: nat)
    requires i < |b| && j < |b|
  {
    SameRing(b, i, j) && b[j].pos <= b[i].pos + (6 * win + 2) * 1200
  }

  /**
    Burst `j` has a vote on burst `i`: it is that burst, or one of the last `win` before it in its ring,
    or one of the first `win` after it in its ring that are near.
    */
  ghost predicate Voter(win: nat, b: seq<TchBurst>, i: nat, j: nat)
    requires i < |b| && j < |b|
  {
    || j == i
    || (j < i && SameRing(b, j, i) && |set m: nat | j < m < i && SameRing(b, m, i)| < win)
    || (j > i && Near(win, b, i, j) && |set m: nat | i < m < j && Near(win, b, i, m)| < win)
  }

  /** More voters say yes than say no. */
  ghost predicate YesPrevails(win: nat, b: seq<TchBurst>, i: nat)
    requires i < |b|
  {
    |set j: nat | j < |b| && Voter(win, b, i, j) && b[j].voice| > |set j: nat | j < |b| && Voter(win, b, i, j) && !b[j].voice|
  }

  lemma {:induction false} RingMoves(b: seq<TchBurst>, i: nat, j: nat)
    requires i <= j < |b|
    ensures RingAt(b, j) < 6 && RingAt(b, j) == (RingAt(b, i) + SlotsBetween(b, i, j)) % 6
  {
    hide RoundHalfEven, RingAt;
    if i == j {
      RingBelow(b, i);
    } else {
      RingMoves(b, i, j - 1);
      RingStep(b, j);
      SumMod(RingAt(b, i) + SlotsBetween(b, i, j - 1), RoundHalfEven((b[j].pos - b[j - 1].pos) as real / 1200.0));
    }
  }

  lemma SumMod(x: int, y: int)
    ensures (x % 6 + y) % 6 == (x + y) % 6
  {
  }

  lemma RingBelow(b: seq<TchBurst>, i: nat)
    requires i < |b|
    ensures RingAt(b, i) < 6
  {
    hide RoundHalfEven;
  }

  lemma RingStep(b: seq<TchBurst>, j: nat)
    requires 0 < j < |b|
    ensures RingAt(b, j) == (RingAt(b, j - 1) + RoundHalfEven((b[j].pos - b[j - 1].pos) as real / 1200.0)) % 6
  {
    hide RoundHalfEven;
  }

  /** Equal rings are a whole number of frames apart. */
  lemma SameRingIs(b: seq<TchBurst>, i: nat, j: nat)
    requires i < |b| && j < |b|
    ensures SameRing(b, i, j) <==> RingAt(b, i) == RingAt(b, j)
  {
    hide RingAt, SlotsBetween;
    RingMoves(b, if i <= j then i else j, if i <= j then j else i);
    RingBelow(b, i);
    RingBelow(b, j);
  }

  /** The bursts before `i` in ring `r`. */
  function PastAt(b: seq<TchBurst>, i: nat, r: nat): seq<nat>
    requires i <= |b|
  {
    if i == 0 then [] else PastAt(b, i - 1, r) + if RingAt(b, i - 1) == r then [i - 1] else []
  }

  /** The mates of `i` before `n`. */
  function LaterAt(win: nat, b: seq<TchBurst>, i: nat, n: nat): seq<nat>
    requires i < |b| && n <= |b|
  {
    if n <= i + 1 then [] else LaterAt(win, b, i, n - 1) + if Mate(win, b, i, n - 1) then [n - 1] else []
  }

  predicate Rising(s: seq<nat>, n: nat) {
    (forall k | 0 <= k < |s| :: s[k] < n) && forall k, l | 0 <= k < l < |s| :: s[k] < s[l]
  }

  function Votes(b: seq<TchBurst>, at: seq<nat>): (r: seq<bool>)
    requires forall k | 0 <= k < |at| :: at[k] < |b|
    ensures |r| == |at|
  {
    seq(|at|, k requires 0 <= k < |at| => b[at[k]].voice)
  }

  /** A list of places grows by a later one. */
  lemma RisingSnoc(b: seq<TchBurst>, s: seq<nat>, x: nat)
    requires Rising(s, x) && x < |b|
    ensures Rising(s, x + 1) && Rising(s + [x], x + 1) && Votes(b, s + [x]) == Votes(b, s) + [b[x].voice]
    ensures forall j: nat :: j in s + [x] <==> j in s || j == x
  {
  }

  lemma PastAtStep(b: seq<TchBurst>, i: nat, r: nat)
    requires i < |b|
    ensures PastAt(b, i + 1, r) == if RingAt(b, i) == r then PastAt(b, i, r) + [i] else PastAt(b, i, r)
  {
    hide RingAt;
  }

  lemma LaterAtStep(win: nat, b: seq<TchBurst>, i: nat, n: nat)
    requires i < n < |b|
    ensures LaterAt(win, b, i, n + 1) == if Mate(win, b, i, n) then LaterAt(win, b, i, n) + [n] else LaterAt(win, b, i, n)
    ensures Later(win, b, i, n + 1)
      == if Mate(win, b, i, n) then Later(win, b, i, n) + [b[n].voice] else Later(win, b, i, n)
  {
    hide Mate;
  }

  lemma NothingPast(b: seq<TchBurst>, r: nat)
    ensures PastAt(b, 0, r) == [] && Past(b, 0, r) == [] && Votes(b, []) == [] && Rising([], 0)
  {
  }

  lemma NothingLater(win: nat, b: seq<TchBurst>, i: nat, n: nat)
    requires i < |b| && n <= |b| && n <= i + 1
    ensures LaterAt(win, b, i, n) == [] && Later(win, b, i, n) == [] && Votes(b, []) == [] && Rising([], n)
  {
  }

  lemma {:induction false} PastAtIs(b: seq<TchBurst>, i: nat, r: nat)
    requires i <= |b|
    ensures Rising(PastAt(b, i, r), i) && Past(b, i, r) == Votes(b, PastAt(b, i, r))
    ensures forall j: nat :: j in PastAt(b, i, r) <==> j < i && RingAt(b, j) == r
  {
    hide RingAt, Votes, PastAt, Past;
    if i == 0 {
      NothingPast(b, r);
    } else {
      PastAtIs(b, i - 1, r);
      PastAtStep(b, i - 1, r);
      PastStep(b, i - 1, r);
      hide Rising;
      RisingSnoc(b, PastAt(b, i - 1, r), i - 1);
    }
  }

  lemma {:induction false} LaterAtIs(win: nat, b: seq<TchBurst>, i: nat, n: nat)
    requires i < |b| && n <= |b|
    ensures Rising(LaterAt(win, b, i, n), n) && Later(win, b, i, n) == Votes(b, LaterAt(win, b, i, n))
    ensures forall j: nat :: j in LaterAt(win, b, i, n) <==> i < j < n && Mate(win, b, i, j)
  {
    hide Mate, Votes, LaterAt, Later;
    if n <= i + 1 {
      NothingLater(win, b, i, n);
    } else {
      LaterAtIs(win, b, i, n - 1);
      LaterAtStep(win, b, i, n - 1);
      hide Rising;
      RisingSnoc(b, LaterAt(win, b, i, n - 1), n - 1);
    }
  }

  function Front(s: seq<nat>, win: nat): seq<nat> { if |s| <= win then s else s[..win] }

  function Rear(s: seq<nat>, win: nat): seq<nat> { if |s| <= win then s else s[|s| - win..] }

  function Places(s: seq<nat>): set<nat> { set x | x in s }

  lemma {:induction false} PlacesCount(s: seq<nat>, n: nat)
    requires Rising(s, n)
    ensures |Places(s)| == |s|
  {
    if s != [] {
      var t, x := s[..|s| - 1], s[|s| - 1];
      PlacesCount(t, n);
      assert s == t + [x];
      assert Places(s) == Places(t) + {x} && x !in Places(t);
    }
  }

  /** In a rising list, an element is among the last `win` if fewer than `win` are greater. */
  lemma RearIs(s: seq<nat>, n: nat, win: nat, k: nat)
    requires Rising(s, n) && k < |s|
    ensures |set m: nat | m < n && m in s && m > s[k]| == |s| - 1 - k
    ensures s[k] in Rear(s, win) <==> |s| - 1 - k < win
  {
    var after := s[k + 1..];
    assert Rising(after, n) by { assert forall l | 0 <= l < |after| :: after[l] == s[k + 1 + l]; }
    PlacesCount(after, n);
    forall m: nat
      ensures m in Places(after) <==> m < n && m in s && m > s[k]
    {
      if m in s && m > s[k] {
        var l :| 0 <= l < |s| && s[l] == m;
        assert l > k && after[l - k - 1] == m;
      }
    }
    assert (set m: nat | m < n && m in s && m > s[k]) == Places(after);
    if s[k] in Rear(s, win) {
      var l :| 0 <= l < |Rear(s, win)| && Rear(s, win)[l] == s[k];
    }
    if |s| - 1 - k < win && |s| > win { assert Rear(s, win)[k - (|s| - win)] == s[k]; }
  }

  lemma FrontIs(s: seq<nat>, n: nat, win: nat, k: nat)
    requires Rising(s, n) && k < |s|
    ensures |set m: nat | m < n && m in s && m < s[k]| == k
    ensures s[k] in Front(s, win) <==> k < win
  {
    var before := s[..k];
    assert Rising(before, n);
    PlacesCount(before, n);
    forall m: nat
      ensures m in Places(before) <==> m < n && m in s && m < s[k]
    {
      if m in s && m < s[k] {
        var l :| 0 <= l < |s| && s[l] == m;
        assert l < k && before[l] == m;
      }
    }
    assert (set m: nat | m < n && m in s && m < s[k]) == Places(before);
    if s[k] in Front(s, win) {
      var l :| 0 <= l < |Front(s, win)| && Front(s, win)[l] == s[k];
    }
    if k < win && |s| > win { assert Front(s, win)[k] == s[k]; }
  }

  lemma PastVoters(win: nat, b: seq<TchBurst>, i: nat, j: nat)
    requires i < |b| && j < i
    ensures Voter(win, b, i, j) <==> j in Rear(PastAt(b, i, RingAt(b, i)), win)
  {
    hide RingAt, SameRing, PastAt, Near;
    var s := PastAt(b, i, RingAt(b, i));
    PastAtIs(b, i, RingAt(b, i));
    forall m: nat | m <= i
      ensures SameRing(b, m, i) <==> RingAt(b, m) == RingAt(b, i)
    {
      SameRingIs(b, m, i);
    }
    if j in s {
      var k :| 0 <= k < |s| && s[k] == j;
      RearIs(s, i, win, k);
      assert (set m: nat | m < i && m in s && m > j) == set m: nat | j < m < i && SameRing(b, m, i);
    }
  }

  lemma LaterVoters(win: nat, b: seq<TchBurst>, i: nat, j: nat)
    requires i < j < |b|
    ensures Voter(win, b, i, j) <==> j in Front(LaterAt(win, b, i, |b|), win)
  {
    hide RingAt, SameRing, LaterAt;
    var s := LaterAt(win, b, i, |b|);
    LaterAtIs(win, b, i, |b|);
    forall m: nat | i <= m < |b|
      ensures Near(win, b, i, m) <==> Mate(win, b, i, m)
    {
      SameRingIs(b, i, m);
    }
    if j in s {
      var k :| 0 <= k < |s| && s[k] == j;
      FrontIs(s, |b|, win, k);
      assert (set m: nat | m < |b| && m in s && m < j) == set m: nat | i < m < j && Near(win, b, i, m);
    }
  }

  function Saying(b: seq<TchBurst>, s: seq<nat>, v: bool): set<nat>
    requires forall k | 0 <= k < |s| :: s[k] < |b|
  {
    set j | j in s && b[j].voice == v
  }

  lemma {:induction false} YesCount(b: seq<TchBurst>, s: seq<nat>)
    requires Rising(s, |b|)
    ensures |Saying(b, s, true)| == Yes(Votes(b, s)) && |Saying(b, s, false)| == |s| - Yes(Votes(b, s))
  {
    if s == [] {
      assert Votes(b, s) == [];
    } else {
      var t, x := s[..|s| - 1], s[|s| - 1];
      assert s == t + [x];
      assert Rising(t, |b|);
      YesCount(b, t);
      VotesSnoc(b, t, x);
      SayingSnoc(b, t, x, true);
      SayingSnoc(b, t, x, false);
    }
  }

  lemma VotesSnoc(b: seq<TchBurst>, t: seq<nat>, x: nat)
    requires (forall k | 0 <= k < |t| :: t[k] < |b|) && x < |b|
    ensures Votes(b, t + [x]) == Votes(b, t) + [b[x].voice]
    ensures Yes(Votes(b, t + [x])) == Yes(Votes(b, t)) + if b[x].voice then 1 else 0
  {
    assert Votes(b, t + [x]) == Votes(b, t) + [b[x].voice];
    assert (Votes(b, t) + [b[x].voice])[..|t|] == Votes(b, t);
  }

  lemma SayingParts(b: seq<TchBurst>, t: seq<nat>, x: nat, v: bool)
    requires x < |b| && forall k | 0 <= k < |t| :: t[k] < |b|
    ensures Saying(b, t + [x], v) == Saying(b, t, v) + if b[x].voice == v then {x} else {}
  {
  }

  lemma SayingSnoc(b: seq<TchBurst>, t: seq<nat>, x: nat, v: bool)
    requires Rising(t + [x], |b|)
    ensures x < |b| && forall k | 0 <= k < |t| :: t[k] < |b|
    ensures |Saying(b, t + [x], v)| == |Saying(b, t, v)| + if b[x].voice == v then 1 else 0
  {
    assert (t + [x])[|t|] == x;
    forall k | 0 <= k < |t|
      ensures t[k] < x
    {
      assert (t + [x])[k] == t[k];
    }
    SayingParts(b, t, x, v);
    assert x !in Saying(b, t, v);
    hide Saying;
  }

  lemma {:induction false} YesBoth(a: seq<bool>, b: seq<bool>)
    ensures Yes(a + b) == Yes(a) + Yes(b)
  {
    if b == [] {
      assert a + b == a;
    } else {
      var n := |b| - 1;
      YesBoth(a, b[..n]);
      assert (a + b)[..|a + b| - 1] == a + b[..n];
    }
  }

  /** The list of all voters, in order. */
  function VoterList(win: nat, b: seq<TchBurst>, i: nat): seq<nat>
    requires i < |b|
  {
    Rear(PastAt(b, i, RingAt(b, i)), win) + [i] + Front(LaterAt(win, b, i, |b|), win)
  }

  lemma VoterListIs(win: nat, b: seq<TchBurst>, i: nat)
    requires i < |b|
    ensures Rising(VoterList(win, b, i), |b|)
    ensures forall j: nat :: j in VoterList(win, b, i) <==> j < |b| && Voter(win, b, i, j)
  {
    hide RingAt, PastAt, LaterAt, Mate, SameRing;
    var past, later := PastAt(b, i, RingAt(b, i)), LaterAt(win, b, i, |b|);
    PastAtIs(b, i, RingAt(b, i));
    LaterAtIs(win, b, i, |b|);
    var p, l := Rear(past, win), Front(later, win);
    assert forall k | 0 <= k < |p| :: p[k] in past;
    assert forall k | 0 <= k < |l| :: l[k] in later;
    forall j: nat
      ensures j in VoterList(win, b, i) <==> j < |b| && Voter(win, b, i, j)
    {
      if j < i {
        PastVoters(win, b, i, j);
      } else if i < j < |b| {
        LaterVoters(win, b, i, j);
      }
    }
  }

  lemma FrontVotes(b: seq<TchBurst>, s: seq<nat>, win: nat)
    requires forall k | 0 <= k < |s| :: s[k] < |b|
    ensures forall k | 0 <= k < |Front(s, win)| :: Front(s, win)[k] < |b|
    ensures Votes(b, Front(s, win)) == First(Votes(b, s), win)
  {
  }

  lemma RearVotes(b: seq<TchBurst>, s: seq<nat>, win: nat)
    requires forall k | 0 <= k < |s| :: s[k] < |b|
    ensures forall k | 0 <= k < |Rear(s, win)| :: Rear(s, win)[k] < |b|
    ensures Votes(b, Rear(s, win)) == Last(Votes(b, s), win)
  {
  }

  lemma VotesBoth(b: seq<TchBurst>, s: seq<nat>, t: seq<nat>)
    requires (forall k | 0 <= k < |s| :: s[k] < |b|) && forall k | 0 <= k < |t| :: t[k] < |b|
    ensures Votes(b, s + t) == Votes(b, s) + Votes(b, t)
  {
  }

  lemma VotesOfList(win: nat, b: seq<TchBurst>, i: nat)
    requires i < |b| && Rising(VoterList(win, b, i), |b|)
    ensures Votes(b, VoterList(win, b, i))
      == Last(Past(b, i, RingAt(b, i)), win) + [b[i].voice] + First(Later(win, b, i, |b|), win)
  {
    hide RingAt, PastAt, LaterAt, Past, Later, Rear, Front, First, Last, Votes;
    var past, later := PastAt(b, i, RingAt(b, i)), LaterAt(win, b, i, |b|);
    PastAtIs(b, i, RingAt(b, i));
    LaterAtIs(win, b, i, |b|);
    RearVotes(b, past, win);
    FrontVotes(b, later, win);
    OneVote(b, i);
    VotesBoth(b, Rear(past, win), [i]);
    VotesBoth(b, Rear(past, win) + [i], Front(later, win));
  }

  lemma OneVote(b: seq<TchBurst>, i: nat)
    requires i < |b|
    ensures Votes(b, [i]) == [b[i].voice]
  {
  }

  /** The decision is the majority of the voters; a tie is not voice. */
  lemma VoteIsMajority(win: nat, b: seq<TchBurst>, i: nat)
    requires i < |b|
    ensures Vote(win, b, i) <==> YesPrevails(win, b, i)
  {
    hide RingAt, PastAt, LaterAt, Past, Later, Voter, VoterList, Last, First;
    var v := VoterList(win, b, i);
    VoterListIs(win, b, i);
    VotesOfList(win, b, i);
    YesCount(b, v);
    var past, later := Last(Past(b, i, RingAt(b, i)), win), First(Later(win, b, i, |b|), win);
    YesBoth(past, [b[i].voice]);
    YesBoth(past + [b[i].voice], later);
    YesOne(b[i].voice);
    assert Saying(b, v, true) == set j: nat | j < |b| && Voter(win, b, i, j) && b[j].voice;
    assert Saying(b, v, false) == set j: nat | j < |b| && Voter(win, b, i, j) && !b[j].voice;
  }

  lemma {:induction false} YesIsCount(s: seq<bool>)
    ensures multiset(s)[true] == Yes(s) && multiset(s)[false] == |s| - Yes(s)
  {
    if s != [] {
      var n := |s| - 1;
      YesIsCount(s[..n]);
      assert s == s[..n] + [s[n]];
    }
  }

  /** More votes are yes than no. */
  lemma MajorityIs(before: seq<bool>, own: bool, after: seq<bool>)
    ensures var votes := multiset(before + [own] + after);
      Majority(before, own, after) <==> votes[true] > votes[false]
  {
    hide Yes;
    YesBoth(before, [own]);
    YesBoth(before + [own], after);
    YesOne(own);
    YesIsCount(before + [own] + after);
  }

  /** A unanimous ring keeps its value. */
  lemma Unanimous(win: nat, b: seq<TchBurst>, i: nat, v: bool)
    requires i < |b| && forall j: nat | j < |b| && Voter(win, b, i, j) :: b[j].voice == v
    ensures Vote(win, b, i) == v
  {
    hide Vote, SameRing, Near;
    VoteIsMajority(win, b, i);
    var yes := set j: nat | j < |b| && Voter(win, b, i, j) && b[j].voice;
    var no := set j: nat | j < |b| && Voter(win, b, i, j) && !b[j].voice;
    assert Voter(win, b, i, i);
    if v {
      assert i in yes && no == {};
    } else {
      assert i in no && yes == {};
    }
  }

  function Negated(b: seq<TchBurst>): (r: seq<TchBurst>)
    ensures |r| == |b| && forall i | 0 <= i < |b| :: r[i] == TchBurst(b[i].pos, !b[i].voice)
  {
    seq(|b|, i requires 0 <= i < |b| => TchBurst(b[i].pos, !b[i].voice))
  }

  lemma {:induction false} SlotsNegated(b: seq<TchBurst>, i: nat, j: nat)
    requires i <= j < |b|
    ensures SlotsBetween(Negated(b), i, j) == SlotsBetween(b, i, j)
  {
    hide RoundHalfEven;
    if i < j { SlotsNegated(b, i, j - 1); }
  }

  lemma SameRingNegated(b: seq<TchBurst>, i: nat, j: nat)
    requires i < |b| && j < |b|
    ensures SameRing(Negated(b), i, j) == SameRing(b, i, j)
  {
    hide SlotsBetween;
    if i <= j { SlotsNegated(b, i, j); } else { SlotsNegated(b, j, i); }
  }

  lemma VoterNegated(win: nat, b: seq<TchBurst>, i: nat, j: nat)
    requires i < |b| && j < |b|
    ensures Voter(win, Negated(b), i, j) == Voter(win, b, i, j)
  {
    hide SameRing;
    var c := Negated(b);
    forall x: nat, y: nat | x < |b| && y < |b|
      ensures SameRing(c, x, y) == SameRing(b, x, y)
    {
      SameRingNegated(b, x, y);
    }
    assert (set m: nat | j < m < i && SameRing(c, m, i)) == set m: nat | j < m < i && SameRing(b, m, i);
    assert (set m: nat | i < m < j && Near(win, c, i, m)) == set m: nat | i < m < j && Near(win, b, i, m);
  }

  /** Negating every vote never leaves two yes decisions, and a tie is no on both sides. */
  lemma NoTwoMajorities(win: nat, b: seq<TchBurst>, i: nat)
    requires i < |b|
    ensures !(Vote(win, b, i) && Vote(win, Negated(b), i))
  {
    hide Vote, Voter;
    var c := Negated(b);
    VoteIsMajority(win, b, i);
    VoteIsMajority(win, c, i);
    forall j: nat | j < |b|
      ensures Voter(win, c, i, j) == Voter(win, b, i, j)
    {
      VoterNegated(win, b, i, j);
    }
    assert (set j: nat | j < |c| && Voter(win, c, i, j) && c[j].voice)
        == set j: nat | j < |b| && Voter(win, b, i, j) && !b[j].voice;
    assert (set j: nat | j < |c| && Voter(win, c, i, j) && !c[j].voice)
        == set j: nat | j < |b| && Voter(win, b, i, j) && b[j].voice;
  }

  lemma YesOne(v: bool)
    ensures Yes([v]) == if v then 1 else 0
  {
    assert [v][..0] == [];
  }

  // ---------------------------------------------------------------- a settled vote stays

  /** Bursts at or after `floor` cannot change the vote of `i`. */
  predicate Settled(win: nat, b: seq<TchBurst>, i: nat, floor: int)
    requires i < |b|
  {
    |Later(win, b, i, |b|)| >= win || floor > b[i].pos + Horizon(win)
  }

  lemma {:induction false} RingPrefix(b: seq<TchBurst>, x: TchBurst, i: nat)
    requires i < |b|
    ensures RingAt(b + [x], i) == RingAt(b, i)
  {
    if i > 0 {
      hide MoveRing;
      RingPrefix(b, x, i - 1);
    }
  }

  lemma {:induction false} PastPrefix(b: seq<TchBurst>, x: TchBurst, i: nat, r: nat)
    requires i <= |b|
    ensures Past(b + [x], i, r) == Past(b, i, r)
  {
    if i > 0 {
      hide RingAt;
      PastPrefix(b, x, i - 1, r);
      RingPrefix(b, x, i - 1);
    }
  }

  lemma {:induction false} LaterPrefix(win: nat, b: seq<TchBurst>, x: TchBurst, i: nat, n: nat)
    requires i < |b| && n <= |b|
    ensures Later(win, b + [x], i, n) == Later(win, b, i, n)
  {
    if n > i + 1 {
      hide RingAt;
      LaterPrefix(win, b, x, i, n - 1);
      RingPrefix(b, x, i);
      RingPrefix(b, x, n - 1);
    }
  }

  lemma SettledStays(win: nat, b: seq<TchBurst>, x: TchBurst, i: nat, floor: int)
    requires i < |b| && Settled(win, b, i, floor) && floor <= x.pos
    ensures Vote(win, b + [x], i) == Vote(win, b, i) && Settled(win, b + [x], i, floor)
  {
    hide RingAt, Majority;
    var c := b + [x];
    RingPrefix(b, x, i);
    PastPrefix(b, x, i, RingAt(b, i));
    LaterPrefix(win, b, x, i, |b|);
    assert Later(win, c, i, |c|) == Later(win, b, i, |b|) + if Mate(win, c, i, |b|) then [x.voice] else [];
    FirstStays(Later(win, b, i, |b|), Later(win, c, i, |c|), win);
  }

  lemma FirstStays(s: seq<bool>, t: seq<bool>, win: nat)
    requires s == t || (s <= t && |s| >= win)
    ensures First(s, win) == First(t, win)
  {
  }

  // ---------------------------------------------------------------- the smoother

  datatype Pending = Pending(burst: TchBurst, ring: nat, voice: bool)

  function Entry(b: seq<TchBurst>, i: nat): Pending
    requires i < |b|
  {
    Pending(b[i], RingAt(b, i), b[i].voice)
  }

  /** The queue holds the bursts from `k` on. */
  ghost predicate Queue(b: seq<TchBurst>, k: nat, pending: seq<Pending>) {
    k + |pending| == |b| && forall x | 0 <= x < |pending| :: pending[x] == EntryAfter(b, k, x)
  }

  function EntryAfter(b: seq<TchBurst>, k: nat, x: nat): Pending
    requires k + x < |b|
  {
    Entry(b, k + x)
  }

  /** For every ring, the last `win` votes of the first `k` bursts. */
  ghost predicate Memory(win: nat, hist: map<nat, seq<bool>>, b: seq<TchBurst>, k: nat) {
    k <= |b| && forall r: nat :: Recall(hist, r) == Last(Past(b, k, r), win)
  }

  function Recall(hist: map<nat, seq<bool>>, r: nat): seq<bool> { if r in hist then hist[r] else [] }

  /** Decisions made so far are the offline ones. */
  ghost predicate Sound(win: nat, b: seq<TchBurst>, decided: seq<Decided>) {
    |decided| <= |b| && forall i | 0 <= i < |decided| :: decided[i] == Decided(b[i], Vote(win, b, i))
  }

  ghost predicate Final(win: nat, b: seq<TchBurst>, k: nat, floor: int) {
    k <= |b| && forall i | 0 <= i < k :: Settled(win, b, i, floor)
  }

  lemma MemoryStays(win: nat, hist: map<nat, seq<bool>>, b: seq<TchBurst>, k: nat, x: TchBurst)
    requires Memory(win, hist, b, k)
    ensures Memory(win, hist, b + [x], k)
  {
    hide Past, Last;
    forall r: nat
      ensures Recall(hist, r) == Last(Past(b + [x], k, r), win)
    {
      PastPrefix(b, x, k, r);
    }
  }

  lemma QueueStays(b: seq<TchBurst>, k: nat, pending: seq<Pending>, x: TchBurst)
    requires Queue(b, k, pending)
    ensures Queue(b + [x], k, pending + [Entry(b + [x], |b|)])
  {
    hide RingAt;
    forall y | 0 <= y < |pending|
      ensures EntryAfter(b + [x], k, y) == EntryAfter(b, k, y)
    {
      RingPrefix(b, x, k + y);
    }
  }

  lemma FinalStays(win: nat, b: seq<TchBurst>, decided: seq<Decided>, floor: int, x: TchBurst)
    requires Sound(win, b, decided) && Final(win, b, |decided|, floor) && floor <= x.pos
    ensures Sound(win, b + [x], decided) && Final(win, b + [x], |decided|, floor)
  {
    hide Vote, Settled;
    forall i | 0 <= i < |decided|
      ensures Vote(win, b + [x], i) == Vote(win, b, i) && Settled(win, b + [x], i, floor)
    {
      SettledStays(win, b, x, i, floor);
    }
  }

  lemma FinalNext(win: nat, b: seq<TchBurst>, k: nat, floor: int)
    requires k < |b| && Final(win, b, k, floor) && Settled(win, b, k, floor)
    ensures Final(win, b, k + 1, floor)
  {
    hide Settled;
  }

  lemma FloorRises(win: nat, b: seq<TchBurst>, k: nat, floor: int, higher: int)
    requires Final(win, b, k, floor) && floor <= higher
    ensures Final(win, b, k, higher)
  {
    hide Later;
    forall i | 0 <= i < k
      ensures Settled(win, b, i, higher)
    {
      assert Settled(win, b, i, floor);
    }
  }

  lemma MemoryNext(win: nat, hist: map<nat, seq<bool>>, b: seq<TchBurst>, k: nat, ring: nat)
    requires k < |b| && ring == RingAt(b, k) && Memory(win, hist, b, k)
    ensures Memory(win, hist[ring := Last(Recall(hist, ring) + [b[k].voice], win)], b, k + 1)
  {
    hide RingAt, Past, Last;
    var h := hist[ring := Last(Recall(hist, ring) + [b[k].voice], win)];
    forall r: nat
      ensures Recall(h, r) == Last(Past(b, k + 1, r), win)
    {
      assert Recall(hist, r) == Last(Past(b, k, r), win);
      PastStep(b, k, r);
      if r == ring {
        LastOfLast(Past(b, k, r), b[k].voice, win);
      }
    }
  }

  lemma PastStep(b: seq<TchBurst>, k: nat, r: nat)
    requires k < |b|
    ensures Past(b, k + 1, r) == if RingAt(b, k) == r then Past(b, k, r) + [b[k].voice] else Past(b, k, r)
  {
    hide RingAt;
  }

  lemma LastOfLast(s: seq<bool>, v: bool, win: nat)
    ensures Last(Last(s, win) + [v], win) == Last(s + [v], win)
  {
  }

  lemma RingLast(b: seq<TchBurst>, x: TchBurst)
    ensures RingAt(b + [x], |b|) == if b == [] then 0 else MoveRing(RingAt(b, |b| - 1), x.pos - b[|b| - 1].pos)
  {
    hide MoveRing;
    if b != [] { RingPrefix(b, x, |b| - 1); }
  }

  class VoiceSmoother {
    const win: nat
    const horizon: nat
    var pending: seq<Pending>
    var hist: map<nat, seq<bool>>
    var hasLast: bool
    var lastPos: int
    var lastRng: nat
    /** All bursts pushed, all decisions made, the position later bursts are promised not to precede, and whether the run is over. */
    ghost var all: seq<TchBurst>
    ghost var decided: seq<Decided>
    ghost var floor: int
    ghost var over: bool

    ghost predicate Clock()
      reads `hasLast, `lastPos, `lastRng, `all
    {
      && (hasLast <==> all != [])
      && (all != [] ==> lastPos == all[|all| - 1].pos && lastRng == RingAt(all, |all| - 1))
    }

    /** Everything but the queue. */
    ghost predicate Core()
      reads this
    {
      && win > 0 && horizon == Horizon(win) && Clock()
      && Memory(win, hist, all, |decided|) && Sound(win, all, decided)
      && (forall i, j | 0 <= i < j < |all| :: all[i].pos < all[j].pos)
    }

    ghost predicate Valid()
      reads this
    {
      Core() && Queue(all, |decided|, pending) && (over || Final(win, all, |decided|, floor))
    }

    /** Bursts still waiting for a decision. */
    ghost function Waiting(): seq<TchBurst>
      reads `all, `decided
    {
      if |decided| <= |all| then all[|decided|..] else []
    }

    /** No burst waits longer than the horizon. */
    ghost predicate Recent(now: int)
      reads this
    {
      |decided| <= |all| && forall i | |decided| <= i < |all| :: now <= all[i].pos + Horizon(win)
    }

    constructor (win: int, ghost first: int)
      ensures Valid() && all == [] && decided == [] && floor == first && !over
      ensures this.win == if win <= 0 then 2 else win
    {
      var w := if win <= 0 then 2 else win;
      this.win, horizon := w, (6 * w + 2) * SLOT;
      pending, hist, hasLast, lastPos, lastRng := [], map[], false, 0, 0;
      all, decided, floor, over := [], [], first, false;
    }

    /** Decisions are about the bursts pushed, in order; the last burst is the latest. */
    lemma DecidedBursts()
      requires Valid()
      ensures |decided| <= |all| && forall i | 0 <= i < |decided| :: decided[i].burst == all[i]
      ensures forall i | 0 <= i < |all| :: all[i].pos <= all[|all| - 1].pos
    {
      hide RingAt, Vote, Memory, Queue, Final;
    }

    method OldestPendingPos() returns (pos: int, ok: bool)
      requires Valid()
      ensures ok == (Waiting() != []) && (ok ==> pos == Waiting()[0].pos)
      ensures ok ==> forall i | 0 <= i < |Waiting()| :: pos <= Waiting()[i].pos
    {
      hide RingAt, Vote, Past;
      if |pending| == 0 { return 0, false; }
      return pending[0].burst.pos, true;
    }

    /** Ring of a burst, relative to the previous one. */
    method RingOf(pos: int) returns (ring: nat)
      modifies `hasLast, `lastPos, `lastRng
      ensures ring == if old(hasLast) then MoveRing(old(lastRng), pos - old(lastPos)) else 0
      ensures hasLast && lastPos == pos && lastRng == ring
    {
      ring := 0;
      if hasLast {
        ring := (lastRng + RoundHalfEven((pos - lastPos) as real / SLOT as real)) % 6;
      }
      hasLast, lastPos, lastRng := true, pos, ring;
    }

    /** Up to `win` votes of entries from `start` on that share the ring within the horizon. */
    method Mates(p: seq<Pending>, start: nat, pos: int, ring: nat, ghost i: nat) returns (out: seq<bool>)
      requires horizon == Horizon(win) && start <= |p| <= |all| && i + 1 == start + (|all| - |p|) && i < |all|
      requires Queue(all, |all| - |p|, p) && pos == all[i].pos && ring == RingAt(all, i)
      ensures out == First(Later(win, all, i, |all|), win)
    {
      hide RingAt;
      out := [];
      var limit := pos + horizon;
      var j := start;
      while j < |p| && |out| < win
        invariant start <= j <= |p|
        invariant out == Later(win, all, i, |all| - |p| + j) && |out| <= win
      {
        if p[j].ring == ring && p[j].burst.pos <= limit {
          out := out + [p[j].voice];
        }
        j := j + 1;
      }
      LaterGrows(win, all, i, |all| - |p| + j, |all|);
    }

    /** Majority of the remembered votes, the own one and the mates'; remembers the own vote. */
    method CastVote(p: Pending, mates: seq<bool>) returns (yesWins: bool)
      modifies `hist
      ensures var h := Recall(old(hist), p.ring);
        yesWins == Majority(h, p.voice, mates) && hist == old(hist)[p.ring := Last(h + [p.voice], win)]
      ensures var votes := multiset(Recall(old(hist), p.ring) + [p.voice] + mates);
        yesWins <==> votes[true] > votes[false]
    {
      MajorityIs(Recall(hist, p.ring), p.voice, mates);
      var h := Recall(hist, p.ring);
      var yes1 := CountYes(h);
      var yes2 := CountYes(mates);
      var yes := yes1 + (if p.voice then 1 else 0) + yes2;
      var n := |h| + 1 + |mates|;
      h := h + [p.voice];
      if |h| > win {
        h := h[|h| - win..];
      }
      hist := hist[p.ring := h];
      yesWins := yes * 2 > n;
    }

    /** Decides the oldest undecided burst. */
    method Decide(p: Pending, mates: seq<bool>) returns (d: Decided)
      requires Core() && |decided| < |all| && p == Entry(all, |decided|)
      requires mates == First(Later(win, all, |decided|, |all|), win)
      modifies `hist, `decided
      ensures Core() && decided == old(decided) + [d] && d.burst == p.burst
    {
      hide RingAt, Majority, Last, First, Past, Later;
      MemoryNext(win, hist, all, |decided|, p.ring);
      assert Recall(hist, p.ring) == Last(Past(all, |decided|, p.ring), win);
      var v := CastVote(p, mates);
      d := Decided(p.burst, v);
      decided := decided + [d];
    }

    /** A new burst, after all earlier ones. */
    method Push(b: TchBurst) returns (out: seq<Decided>)
      requires Valid() && !over && floor <= b.pos && (all != [] ==> all[|all| - 1].pos < b.pos)
      modifies this
      ensures Valid() && !over && all == old(all) + [b] && decided == old(decided) + out && floor == b.pos
      ensures Sound(win, all, decided) && Recent(b.pos)
    {
      hide Memory, Sound, Final, Queue, MoveRing;
      MemoryStays(win, hist, all, |decided|, b);
      QueueStays(all, |decided|, pending, b);
      FinalStays(win, all, decided, floor, b);
      RingLast(all, b);
      var ring := RingOf(b.pos);
      all := all + [b];
      pending := pending + [Pending(b, ring, b.voice)];
      out := Release(b.pos);
    }

    /** Decides every burst whose vote can no longer change, given that no burst before `highWater` will come. */
    method Release(highWater: int) returns (out: seq<Decided>)
      requires Valid() && !over && floor <= highWater
      modifies `pending, `hist, `decided, `floor
      ensures Valid() && !over && decided == old(decided) + out && floor == highWater
      ensures Sound(win, all, decided) && Recent(highWater)
    {
      hide RingAt, Vote, Memory, Sound, Later, First, Final, Settled, Queue, Entry, Recent, Clock;
      out := [];
      FloorRises(win, all, |decided|, floor, highWater);
      floor := highWater;
      NoneWaits(highWater);
      while |pending| > 0
        invariant Valid() && !over && floor == highWater && decided == old(decided) + out
        invariant pending == [] ==> Recent(highWater)
        decreases |pending|
      {
        var p := pending[0];
        QueueHead(all, |decided|, pending);
        var mates := Mates(pending, 1, p.burst.pos, p.ring, |decided|);
        if |mates| < win && highWater <= p.burst.pos + horizon {
          HeadFirst(highWater);
          break;
        }
        EnoughMates(win, all, |decided|, mates, highWater);
        var d := DecideHead(mates);
        NoneWaits(highWater);
        out := out + [d];
      }
    }

    lemma NoneWaits(now: int)
      requires Valid()
      ensures pending == [] ==> Recent(now)
    {
      hide RingAt, Vote, Memory, Sound, Later, First, Final, Settled, Entry;
    }

    /** The head of the queue is the earliest burst that waits. */
    lemma HeadFirst(now: int)
      requires Valid() && |decided| < |all| && now <= all[|decided|].pos + Horizon(win)
      ensures Recent(now)
    {
      hide RingAt, Vote, Memory, Sound, Later, First, Final, Settled, Queue, Entry;
    }

    /** Decides the head of the queue, whose vote is settled. */
    method DecideHead(mates: seq<bool>) returns (d: Decided)
      requires Valid() && !over && pending != [] && |decided| < |all| && Settled(win, all, |decided|, floor)
      requires mates == First(Later(win, all, |decided|, |all|), win)
      modifies `pending, `hist, `decided
      ensures Valid() && decided == old(decided) + [d] && |pending| == old(|pending|) - 1
    {
      hide RingAt, Vote, Memory, Sound, Later, First, Final, Settled, Queue, Entry;
      QueueHead(all, |decided|, pending);
      FinalNext(win, all, |decided|, floor);
      QueueTail(all, |decided|, pending);
      d := Decide(pending[0], mates);
      pending := pending[1..];
    }

    /** End of the run: decides everything that is left. */
    method Flush() returns (out: seq<Decided>)
      requires Valid()
      modifies `pending, `hist, `decided, `over
      ensures Valid() && over && decided == old(decided) + out
      ensures decided == Offline(win, all)
    {
      hide RingAt, Vote, Memory, Later, First, Final, MoveRing;
      over := true;
      var pend := pending;
      pending := [];
      out := [];
      ghost var k := |decided|;
      var i := 0;
      while i < |pend|
        invariant 0 <= i <= |pend| && Core() && over && pending == [] && Queue(all, k, pend)
        invariant decided == old(decided) + out && |decided| == k + i
      {
        var p := pend[i];
        assert p == EntryAfter(all, k, i);
        var mates := Mates(pend, i + 1, p.burst.pos, p.ring, k + i);
        var d := Decide(p, mates);
        out := out + [d];
        i := i + 1;
      }
    }
  }

  lemma QueueHead(b: seq<TchBurst>, k: nat, pending: seq<Pending>)
    requires Queue(b, k, pending) && pending != []
    ensures k + |pending| == |b| && k < |b| && pending[0] == Entry(b, k) == Pending(b[k], RingAt(b, k), b[k].voice)
  {
    assert pending[0] == EntryAfter(b, k, 0);
  }

  lemma QueueTail(b: seq<TchBurst>, k: nat, pending: seq<Pending>)
    requires Queue(b, k, pending) && pending != []
    ensures Queue(b, k + 1, pending[1..])
  {
    hide RingAt;
    forall x | 0 <= x < |pending| - 1
      ensures pending[1..][x] == EntryAfter(b, k + 1, x)
    {
      assert pending[x + 1] == EntryAfter(b, k, x + 1);
    }
  }

  lemma EnoughMates(win: nat, b: seq<TchBurst>, i: nat, mates: seq<bool>, floor: int)
    requires i < |b| && mates == First(Later(win, b, i, |b|), win)
    requires |mates| >= win || floor > b[i].pos + Horizon(win)
    ensures Settled(win, b, i, floor)
  {
    hide Later;
  }

  lemma {:induction false} LaterGrows(win: nat, b: seq<TchBurst>, i: nat, m: nat, n: nat)
    requires i < |b| && m <= n <= |b|
    ensures Later(win, b, i, m) <= Later(win, b, i, n)
  {
    if m < n { LaterGrows(win, b, i, m, n - 1); }
  }

  method CountYes(s: seq<bool>) returns (n: nat)
    ensures n == Yes(s)
  {
    n := 0;
    var i := 0;
    while i < |s|
      invariant 0 <= i <= |s| && n == Yes(s[..i])
    {
      assert s[..i + 1][..i] == s[..i];
      if s[i] {
        n := n + 1;
      }
      i := i + 1;
    }
    assert s[..i] == s;
  }

  // ---------------------------------------------------------------- runs

  datatype Event = Push(burst: TchBurst) | Release(highWater: int)

  function Pushed(e: seq<Event>): seq<TchBurst> {
    if e == [] then []
    else Pushed(e[..|e| - 1]) + match e[|e| - 1] case Push(b) => [b] case Release(_) => []
  }

  function Position(e: Event): int {
    match e case Push(b) => b.pos case Release(h) => h
  }

  /** Events in order of time; a burst is later than the one before it. */
  predicate Orderly(e: seq<Event>) {
    && (forall i, j | 0 <= i < j < |e| :: Position(e[i]) <= Position(e[j]))
    && (forall i, j | 0 <= i < j < |e| && e[i].Push? && e[j].Push? :: Position(e[i]) < Position(e[j]))
  }

  /** The last burst pushed so far is one of the events so far. */
  lemma {:induction false} LastPushed(e: seq<Event>, n: nat)
    requires n <= |e|
    ensures Pushed(e[..n]) != [] ==> exists k :: 0 <= k < n && e[k] == Push(Pushed(e[..n])[|Pushed(e[..n])| - 1])
  {
    if n > 0 {
      assert e[..n][..n - 1] == e[..n - 1] && e[..n][n - 1] == e[n - 1];
      LastPushed(e, n - 1);
    }
  }

  /** Offline, every burst appears once and is decided by the majority of its voters. */
  lemma OfflineIsMajority(win: nat, b: seq<TchBurst>)
    ensures forall i | 0 <= i < |b| :: Offline(win, b)[i].burst == b[i]
    ensures forall i | 0 <= i < |b| :: Offline(win, b)[i].isVoice <==> YesPrevails(win, b, i)
  {
    hide Vote, YesPrevails;
    forall i | 0 <= i < |b|
      ensures Offline(win, b)[i].isVoice <==> YesPrevails(win, b, i)
    {
      VoteIsMajority(win, b, i);
    }
  }

  /** Any interleaving of releases, then a flush, gives the offline decisions. */
  method Smooth(win: int, events: seq<Event>) returns (out: seq<Decided>)
    requires Orderly(events)
    ensures out == Offline(if win <= 0 then 2 else win, Pushed(events))
    ensures |out| == |Pushed(events)| && forall i | 0 <= i < |out| :: out[i].burst == Pushed(events)[i]
    ensures forall i | 0 <= i < |out| :: out[i].isVoice <==> YesPrevails(if win <= 0 then 2 else win, Pushed(events), i)
  {
    hide Vote, Offline, RingAt, YesPrevails, VoiceSmoother.Valid;
    var first := if events == [] then 0 else Position(events[0]);
    var s := new VoiceSmoother(win, first);
    out := [];
    var i := 0;
    while i < |events|
      invariant 0 <= i <= |events| && s.Valid() && fresh(s) && !s.over && s.win == if win <= 0 then 2 else win
      invariant s.all == Pushed(events[..i]) && s.decided == out
      invariant forall j | i <= j < |events| :: s.floor <= Position(events[j])
    {
      assert events[..i + 1][..i] == events[..i];
      LastPushed(events, i);
      match events[i] {
        case Push(b) =>
          var o := s.Push(b);
          out := out + o;
        case Release(h) =>
          var o := s.Release(h);
          out := out + o;
      }
      i := i + 1;
    }
    assert events[..i] == events;
    var o := s.Flush();
    out := out + o;
    OfflineIsMajority(s.win, Pushed(events));
  }
}
