// The queue pair as a protocol: every interleaving of driver and controller steps, with any number of outstanding
// commands that the rings allow and completions posted in any order.

module NvmeProtocol {
  import opened Bytes
  import opened Revisions
  import opened NvmeQueuePair

  /** The controller: its ring positions, its phase tag, and the commands it has fetched and not yet completed. */
  datatype Controller = Controller(sqHead: nat, cqTail: nat, phase: bool, pending: seq<Command>)

  /** A completion by the command it is for. */
  datatype Done = Done(which: nat, status: nat)

  /** Driver, controller, and the history of the pair: how many commands were submitted and fetched, which are still
      waited for, what the controller posted, and what the polls returned. */
  datatype System = System(h: Host, c: Controller, submitted: nat, fetched: nat, waiting: set<nat>,
                           posted: seq<Done>, results: seq<Done>)

  datatype Step = Submit | Fetch | Post(i: nat, status: nat) | Poll(which: nat)

  function Init(id: nat, subObjs: nat, cmpObjs: nat): System {
    System(InitialHost(id, subObjs, cmpObjs), Controller(0, 0, true, []), 0, 0, {}, [], [])
  }

  ghost predicate Shape(s: System) {
    && ValidHost(s.h)
    && 2 <= |s.h.sq| <= 0x100 && 2 <= |s.h.cq|
    && s.c.sqHead < |s.h.sq| && s.c.cqTail < |s.h.cq|
  }

  /** Submit: one ring slot stays free, and the next slot is not that of a command still waited for.
      Fetch: the tail doorbell is ahead.  Post: one slot of the completion ring stays free, by the head doorbell.
      Poll: for a command still waited for, once the slot at the head matches phase and identifier. */
  ghost predicate Enabled(s: System, step: Step)
    requires Shape(s)
  {
    match step
    case Submit => |s.waiting| + 1 < |s.h.sq| && forall j | j in s.waiting ::
        Slot(j, |s.h.sq|) != Slot(s.submitted, |s.h.sq|)
    case Fetch => s.c.sqHead != s.h.sqTail
    case Post(i, _) => i < |s.c.pending| && (s.c.cqTail + 1) % |s.h.cq| != s.h.cqHead
    case Poll(which) => which in s.waiting && HostReady(s.h, CidOf(s.h.id, Slot(which, |s.h.sq|)))
  }

  function Without(q: seq<Command>, i: nat): (r: seq<Command>)
    requires i < |q|
    ensures |r| == |q| - 1
    ensures forall j | 0 <= j < |r| :: r[j] == q[if j < i then j else j + 1]
  {
    q[..i] + q[i + 1..]
  }

  ghost function Next(rev: Revision, s: System, step: Step): System
    requires Shape(s) && Enabled(s, step)
  {
    match step
    case Submit =>
      s.(h := HostSubmit(s.h, s.submitted), submitted := s.submitted + 1, waiting := s.waiting + {s.submitted})
    case Fetch =>
      s.(c := s.c.(sqHead := (s.c.sqHead + 1) % |s.h.sq|, pending := s.c.pending + [s.h.sq[s.c.sqHead]]),
         fetched := s.fetched + 1)
    case Post(i, status) =>
      var cmd, tail, objs := s.c.pending[i], s.c.cqTail, |s.h.cq|;
      s.(h := s.h.(cq := s.h.cq[tail := Completion(cmd.cid, s.c.phase, status)]),
         c := s.c.(cqTail := (tail + 1) % objs,
                   phase := if tail + 1 == objs then !s.c.phase else s.c.phase,
                   pending := Without(s.c.pending, i)),
         posted := s.posted + [Done(cmd.which, status)])
    case Poll(which) =>
      s.(h := HostConsume(rev, s.h), waiting := s.waiting - {which},
         results := s.results + [Done(which, s.h.cq[s.h.cmpIdx].status)])
  }

  // ---------------------------------------------------------------- laps

  /** The ring slot of the `k`-th entry. */
  function Slot(k: nat, n: nat): (i: nat)
    requires n > 0
    ensures i < n
  {
    k % n
  }

  /** The phase tag of the `k`-th completion of a ring of `n`: 1 on even laps. */
  predicate Lap(k: nat, n: nat)
    requires n > 0
  {
    k / n % 2 == 0
  }

  lemma Advance(k: nat, n: nat)
    requires n >= 2
    ensures Slot(k + 1, n) == (Slot(k, n) + 1) % n
    ensures Slot(k + 1, n) == if Slot(k, n) == n - 1 then 0 else Slot(k, n) + 1
    ensures Lap(k + 1, n) == if Slot(k, n) == n - 1 then !Lap(k, n) else Lap(k, n)
  {
    var q, r := k / n, k % n;
    DivModSplit(k, n);
    if r == n - 1 {
      assert k + 1 == (q + 1) * n + 0;
      DivModIs(k + 1, n, q + 1, 0);
      DivModIs(r + 1, n, 1, 0);
    } else {
      DivModIs(k + 1, n, q, r + 1);
      DivModIs(r + 1, n, 0, r + 1);
    }
  }

  /** A ring of `n` slots tells `n` consecutive counts apart; one lap on, the slot is the same and the tag flips. */
  lemma WindowIsInjective(i: nat, j: nat, n: nat)
    requires n > 0 && i < j < i + n
    ensures Slot(i, n) != Slot(j, n)
  {
    var qi, ri, qj, rj := i / n, i % n, j / n, j % n;
    DivModSplit(i, n);
    DivModSplit(j, n);
    assert (qj - qi) * n == qj * n - qi * n;
    MultipleIsLarge(qj - qi, n);
  }

  lemma OneLapBack(k: nat, n: nat)
    requires n > 0 && k >= n
    ensures Slot(k - n, n) == Slot(k, n) && Lap(k - n, n) != Lap(k, n)
  {
    DivModSplit(k, n);
    assert k - n == (k / n - 1) * n + k % n;
    DivModIs(k - n, n, k / n - 1, k % n);
  }

  lemma FirstLap(k: nat, n: nat)
    requires k < n
    ensures Slot(k, n) == k && Lap(k, n)
  {
    DivModIs(k, n, 0, k);
  }

  // ---------------------------------------------------------------- the invariant

  /** The phase that the driver expects after `consumed` completions. */
  predicate ExpectedPhase(rev: Revision, consumed: nat, n: nat)
    requires n > 0
  {
    rev.AsShipped? || Lap(consumed, n)
  }

  /** Ring indices, phases and doorbells are functions of the counts. */
  ghost predicate Counters(rev: Revision, s: System) {
    var m, n := |s.h.sq|, |s.h.cq|;
    && Shape(s)
    && |s.results| <= |s.posted| <= s.fetched <= s.submitted
    && |s.posted| < |s.results| + n && s.submitted < s.fetched + m
    && s.h.subIdx == s.h.sqTail == Slot(s.submitted, m)
    && s.c.sqHead == Slot(s.fetched, m)
    && s.h.cmpIdx == s.h.cqHead == Slot(|s.results|, n)
    && s.c.cqTail == Slot(|s.posted|, n)
    && s.c.phase == Lap(|s.posted|, n)
    && s.h.phase == ExpectedPhase(rev, |s.results|, n)
  }

  /** What the rings hold: the unfetched commands, and the last lap of completions. */
  ghost predicate Rings(s: System)
    requires Shape(s)
  {
    var m, n, p := |s.h.sq|, |s.h.cq|, |s.posted|;
    && (forall j: nat | s.fetched <= j < s.submitted :: s.h.sq[Slot(j, m)] == Command(CidOf(s.h.id, Slot(j, m)), j))
    && (forall j: nat | j < p && p <= j + n :: s.h.cq[Slot(j, n)] == Entry(s, j))
    && (forall j: nat | p <= j < n :: !s.h.cq[j].phase)
  }

  function Entry(s: System, j: nat): Completion
    requires j < |s.posted| && |s.h.sq| > 0 && |s.h.cq| > 0
  {
    Completion(CidOf(s.h.id, Slot(s.posted[j].which, |s.h.sq|)), Lap(j, |s.h.cq|), s.posted[j].status)
  }

  /** The commands waited for are submitted ones, hold different slots, and include all that are not fetched. */
  ghost predicate RightlyWaiting(s: System)
    requires Shape(s)
  {
    && (forall j | j in s.waiting :: j < s.submitted)
    && (forall i, j | i in s.waiting && j in s.waiting && i != j :: Slot(i, |s.h.sq|) != Slot(j, |s.h.sq|))
    && (forall j: nat | s.fetched <= j < s.submitted :: j in s.waiting)
    && |s.waiting| < |s.h.sq|
  }

  /** Those with the controller are fetched, waited for and there once. */
  ghost predicate RightlyPending(s: System)
    requires Shape(s)
  {
    var m, q := |s.h.sq|, s.c.pending;
    && (forall i | 0 <= i < |q| ::
          q[i].which in s.waiting && q[i].which < s.fetched && q[i].cid == CidOf(s.h.id, Slot(q[i].which, m)))
    && (forall i, j | 0 <= i < j < |q| :: q[i].which != q[j].which)
  }

  /** Those posted are fetched, posted once, and waited for until they are polled. */
  ghost predicate RightlyPosted(s: System) {
    && (forall k | 0 <= k < |s.posted| :: s.posted[k].which in s.waiting <==> |s.results| <= k)
    && (forall k | 0 <= k < |s.posted| :: s.posted[k].which < s.fetched)
    && (forall k, l | 0 <= k < l < |s.posted| :: s.posted[k].which != s.posted[l].which)
    && s.results <= s.posted
  }

  ghost predicate IsPending(q: seq<Command>, j: nat) {
    exists i :: 0 <= i < |q| && q[i].which == j
  }

  ghost predicate IsPosted(posted: seq<Done>, j: nat) {
    exists k :: 0 <= k < |posted| && posted[k].which == j
  }

  /** No command is in two places ... */
  ghost predicate InOnePlace(s: System) {
    forall i, k | 0 <= i < |s.c.pending| && 0 <= k < |s.posted| :: s.c.pending[i].which != s.posted[k].which
  }

  /** ... and none is lost: each one submitted is in its ring, with the controller, or posted. */
  ghost predicate NoneLost(s: System) {
    forall j: nat | j < s.submitted :: s.fetched <= j || IsPending(s.c.pending, j) || IsPosted(s.posted, j)
  }

  /** Every command is in exactly one place. */
  ghost predicate Places(s: System)
    requires Shape(s)
  {
    RightlyWaiting(s) && RightlyPending(s) && RightlyPosted(s) && InOnePlace(s) && NoneLost(s)
  }

  ghost predicate Inv(rev: Revision, s: System) {
    Counters(rev, s) && Rings(s) && Places(s)
  }

  lemma HasShape(rev: Revision, s: System)
    requires Inv(rev, s)
    ensures Shape(s)
  {}

  // ---------------------------------------------------------------- what a matching slot means

  /** While the driver expects the right phase: the slot at the head matches it exactly when it holds a completion
      that has not been polled, and then it is the oldest of them. */
  lemma HeadMatchesIffUnread(rev: Revision, s: System)
    requires Inv(rev, s) && ExpectedPhase(rev, |s.results|, |s.h.cq|) == Lap(|s.results|, |s.h.cq|)
    ensures s.h.cq[s.h.cmpIdx].phase == s.h.phase <==> |s.results| < |s.posted|
    ensures |s.results| < |s.posted| ==> s.h.cq[s.h.cmpIdx] == Entry(s, |s.results|)
  {
    SlotMatchesIffUnread(rev, s, |s.results|);
  }

  /** ... and so for every slot: seen `k` places ahead of the head, it carries the tag of its lap exactly when the
      completion that belongs there has been posted. */
  lemma SlotMatchesIffUnread(rev: Revision, s: System, k: nat)
    requires Inv(rev, s) && |s.results| <= k < |s.results| + |s.h.cq|
    ensures s.h.cq[Slot(k, |s.h.cq|)].phase == Lap(k, |s.h.cq|) <==> k < |s.posted|
    ensures k < |s.posted| ==> s.h.cq[Slot(k, |s.h.cq|)] == Entry(s, k)
  {
    var n := |s.h.cq|;
    if k >= |s.posted| {
      if k >= n {
        OneLapBack(k, n);
        assert s.h.cq[Slot(k - n, n)] == Entry(s, k - n);
      } else {
        FirstLap(k, n);
      }
    }
  }

  /** A poll that returns, returns the completion of its own command, the oldest one not yet polled. */
  lemma PollReturnsOwnCompletion(rev: Revision, s: System, which: nat)
    requires Inv(rev, s) && Enabled(s, Poll(which))
    requires ExpectedPhase(rev, |s.results|, |s.h.cq|) == Lap(|s.results|, |s.h.cq|)
    ensures |s.results| < |s.posted|
    ensures Done(which, s.h.cq[s.h.cmpIdx].status) == s.posted[|s.results|]
  {
    HeadMatchesIffUnread(rev, s);
    var k, m := |s.results|, |s.h.sq|;
    CidsDifferIff(s.h.id, Slot(s.posted[k].which, m), s.h.id, Slot(which, m));
    assert s.posted[k].which in s.waiting;
  }

  /** As long as completions are unread, exactly one poll can end: that for the oldest of them. */
  lemma OldestCanBePolled(rev: Revision, s: System, which: nat)
    requires Inv(rev, s) && |s.results| < |s.posted|
    requires ExpectedPhase(rev, |s.results|, |s.h.cq|) == Lap(|s.results|, |s.h.cq|)
    ensures Enabled(s, Poll(which)) <==> which == s.posted[|s.results|].which
  {
    HeadMatchesIffUnread(rev, s);
    if Enabled(s, Poll(which)) {
      PollReturnsOwnCompletion(rev, s, which);
    }
  }

  // ---------------------------------------------------------------- every step keeps the invariant

  /** The unfetched commands are among those waited for. */
  lemma UnfetchedAreWaiting(s: System)
    requires Shape(s) && s.fetched <= s.submitted
    requires forall j: nat | s.fetched <= j < s.submitted :: j in s.waiting
    ensures s.submitted - s.fetched <= |s.waiting|
  {
    IntervalInside(s.fetched, s.submitted, s.waiting);
  }

  lemma {:induction false} IntervalInside(lo: nat, hi: nat, w: set<nat>)
    requires lo <= hi && forall j: nat | lo <= j < hi :: j in w
    ensures hi - lo <= |w|
    decreases hi - lo
  {
    if lo < hi {
      IntervalInside(lo, hi - 1, w - {hi - 1});
    }
  }

  lemma SubmitKeepsInv(rev: Revision, s: System)
    requires Inv(rev, s) && Enabled(s, Submit)
    ensures Inv(rev, Next(rev, s, Submit))
  {
    UnfetchedAreWaiting(s);
    Advance(s.submitted, |s.h.sq|);
    assert Counters(rev, Next(rev, s, Submit));
    SubmitKeepsRings(rev, s);
    SubmitKeepsPlaces(rev, s);
  }

  lemma SubmitKeepsRings(rev: Revision, s: System)
    requires Inv(rev, s) && Enabled(s, Submit)
    ensures Rings(Next(rev, s, Submit))
  {
    var s', m := Next(rev, s, Submit), |s.h.sq|;
    forall j: nat | s.fetched <= j < s.submitted
      ensures Slot(j, m) != Slot(s.submitted, m)
    {
      assert j in s.waiting;
    }
    assert forall j: nat | j < |s.posted| :: Entry(s', j) == Entry(s, j);
  }

  lemma SubmitKeepsPlaces(rev: Revision, s: System)
    requires Inv(rev, s) && Enabled(s, Submit)
    ensures Places(Next(rev, s, Submit))
  {
    HasShape(rev, s);
    hide Counters, Rings, CidOf;
    assert s.fetched <= s.submitted by { CountsInOrder(rev, s); }
    SubmitKeepsWaiting(rev, s);
    SubmitKeepsPending(rev, s);
    SubmitKeepsPosted(rev, s);
  }

  lemma CountsInOrder(rev: Revision, s: System)
    requires Shape(s) && Counters(rev, s)
    ensures |s.results| <= |s.posted| <= s.fetched <= s.submitted
  {}

  lemma SubmitKeepsWaiting(rev: Revision, s: System)
    requires Shape(s) && RightlyWaiting(s) && Enabled(s, Submit) && s.fetched <= s.submitted
    ensures RightlyWaiting(Next(rev, s, Submit))
  {
    hide CidOf, Slot;
    assert s.submitted !in s.waiting;
  }

  lemma SubmitKeepsPending(rev: Revision, s: System)
    requires Shape(s) && RightlyPending(s) && Enabled(s, Submit)
    ensures RightlyPending(Next(rev, s, Submit))
  {
    hide CidOf, Slot;
  }

  lemma SubmitKeepsPosted(rev: Revision, s: System)
    requires Shape(s) && RightlyPosted(s) && Enabled(s, Submit) && s.fetched <= s.submitted
    ensures RightlyPosted(Next(rev, s, Submit))
  {
    hide CidOf, Slot;
  }

  lemma FetchKeepsInv(rev: Revision, s: System)
    requires Inv(rev, s) && Enabled(s, Fetch)
    ensures Inv(rev, Next(rev, s, Fetch))
  {
    var s' := Next(rev, s, Fetch);
    Advance(s.fetched, |s.h.sq|);
    assert s.fetched < s.submitted;
    var cmd := s.h.sq[s.c.sqHead];
    assert cmd == Command(CidOf(s.h.id, Slot(s.fetched, |s.h.sq|)), s.fetched);
    assert forall j: nat | j < |s.posted| :: Entry(s', j) == Entry(s, j);
    FetchKeepsPlaces(rev, s);
  }

  lemma FetchKeepsPlaces(rev: Revision, s: System)
    requires Inv(rev, s) && Enabled(s, Fetch)
    requires s.fetched < s.submitted
    requires s.h.sq[s.c.sqHead] == Command(CidOf(s.h.id, Slot(s.fetched, |s.h.sq|)), s.fetched)
    ensures Places(Next(rev, s, Fetch))
  {
    hide CidOf;
    var s' := Next(rev, s, Fetch);
    var q, q', cmd := s.c.pending, s'.c.pending, s.h.sq[s.c.sqHead];
    assert forall i | 0 <= i < |q'| :: q'[i] == if i < |q| then q[i] else cmd;
    assert q'[|q|].which == s.fetched;
    forall j: nat | IsPending(q, j)
      ensures IsPending(q', j)
    {
      var i :| 0 <= i < |q| && q[i].which == j;
      assert q'[i].which == j;
    }
  }

  lemma PostKeepsInv(rev: Revision, s: System, i: nat, status: nat)
    requires Inv(rev, s) && Enabled(s, Post(i, status))
    ensures Inv(rev, Next(rev, s, Post(i, status)))
  {
    PostKeepsCounters(rev, s, i, status);
    PostKeepsRings(rev, s, i, status);
    PostKeepsPlaces(rev, s, i, status);
  }

  lemma PostKeepsCounters(rev: Revision, s: System, i: nat, status: nat)
    requires Inv(rev, s) && Enabled(s, Post(i, status))
    ensures Counters(rev, Next(rev, s, Post(i, status)))
  {
    var n, p := |s.h.cq|, |s.posted|;
    Advance(p, n);
    if p + 1 == |s.results| + n {
      WrapIsNext(|s.results|, n);
    }
    PostedBelowFetched(s, i);
  }

  lemma WrapIsNext(k: nat, n: nat)
    requires n >= 2
    ensures Slot(k + n, n) == Slot(k, n)
    ensures Slot(k + n, n) == (Slot(k + n - 1, n) + 1) % n
  {
    OneLapBack(k + n, n);
    Advance(k + n - 1, n);
  }

  /** Posted and pending commands are different fetched ones, so that a pending one leaves room to post. */
  lemma PostedBelowFetched(s: System, i: nat)
    requires Shape(s) && Places(s) && i < |s.c.pending|
    ensures |s.posted| < s.fetched
  {
    var done := set k | 0 <= k < |s.posted| :: s.posted[k].which;
    DistinctCount(s.posted);
    var all := done + {s.c.pending[i].which};
    assert s.c.pending[i].which !in done;
    BoundedSet(all, s.fetched);
  }

  lemma {:induction false} DistinctCount(posted: seq<Done>)
    requires forall k, l | 0 <= k < l < |posted| :: posted[k].which != posted[l].which
    ensures |set k | 0 <= k < |posted| :: posted[k].which| == |posted|
  {
    if posted != [] {
      var n := |posted| - 1;
      DistinctCount(posted[..n]);
      var rest := set k | 0 <= k < n :: posted[..n][k].which;
      assert (set k | 0 <= k < |posted| :: posted[k].which) == rest + {posted[n].which};
    }
  }

  lemma {:induction false} BoundedSet(w: set<nat>, bound: nat)
    requires forall j | j in w :: j < bound
    ensures |w| <= bound
    decreases bound
  {
    if bound > 0 {
      BoundedSet(w - {bound - 1}, bound - 1);
    } else {
      assert w == {};
    }
  }

  lemma PostKeepsRings(rev: Revision, s: System, i: nat, status: nat)
    requires Inv(rev, s) && Enabled(s, Post(i, status))
    ensures Rings(Next(rev, s, Post(i, status)))
  {
    var s' := Next(rev, s, Post(i, status));
    var n, p := |s.h.cq|, |s.posted|;
    assert s'.h.cq == s.h.cq[Slot(p, n) := Entry(s', p)];
    forall j: nat | j <= p && p + 1 <= j + n
      ensures s'.h.cq[Slot(j, n)] == Entry(s', j)
    {
      if j < p {
        WindowIsInjective(j, p, n);
        assert Entry(s', j) == Entry(s, j);
      }
    }
    forall j: nat | p + 1 <= j < n
      ensures !s'.h.cq[j].phase
    {
      FirstLap(p, n);
    }
  }

  lemma PostKeepsPlaces(rev: Revision, s: System, i: nat, status: nat)
    requires Inv(rev, s) && Enabled(s, Post(i, status))
    ensures Places(Next(rev, s, Post(i, status)))
  {
    HasShape(rev, s);
    hide Counters, Rings, CidOf, Without;
    PostKeepsPending(rev, s, i, status);
    PostKeepsPosted(rev, s, i, status);
    PostKeepsApart(rev, s, i, status);
    PostLosesNone(rev, s, i, status);
    hide *;
    PostKeepsWaiting(rev, s, i, status);
  }

  lemma PostKeepsWaiting(rev: Revision, s: System, i: nat, status: nat)
    requires Shape(s) && RightlyWaiting(s) && Enabled(s, Post(i, status))
    ensures RightlyWaiting(Next(rev, s, Post(i, status)))
  {}

  lemma PostKeepsPending(rev: Revision, s: System, i: nat, status: nat)
    requires Shape(s) && RightlyPending(s) && Enabled(s, Post(i, status))
    ensures RightlyPending(Next(rev, s, Post(i, status)))
  {
    hide CidOf, Slot;
  }

  lemma PostKeepsPosted(rev: Revision, s: System, i: nat, status: nat)
    requires Shape(s) && RightlyPending(s) && RightlyPosted(s) && InOnePlace(s) && Enabled(s, Post(i, status))
    ensures RightlyPosted(Next(rev, s, Post(i, status)))
  {
    hide CidOf, Slot;
  }

  lemma PostKeepsApart(rev: Revision, s: System, i: nat, status: nat)
    requires Shape(s) && RightlyPending(s) && InOnePlace(s) && Enabled(s, Post(i, status))
    ensures InOnePlace(Next(rev, s, Post(i, status)))
  {
    hide CidOf, Slot;
  }

  lemma PostLosesNone(rev: Revision, s: System, i: nat, status: nat)
    requires Shape(s) && NoneLost(s) && Enabled(s, Post(i, status))
    ensures NoneLost(Next(rev, s, Post(i, status)))
  {
    var s' := Next(rev, s, Post(i, status));
    var q, q' := s.c.pending, s'.c.pending;
    assert s'.posted[|s.posted|].which == q[i].which;
    forall j: nat | IsPending(q, j)
      ensures IsPending(q', j) || IsPosted(s'.posted, j)
    {
      var l :| 0 <= l < |q| && q[l].which == j;
      if l != i {
        assert q'[if l < i then l else l - 1].which == j;
      }
    }
    forall j: nat | IsPosted(s.posted, j)
      ensures IsPosted(s'.posted, j)
    {
      var k :| 0 <= k < |s.posted| && s.posted[k].which == j;
      assert s'.posted[k].which == j;
    }
  }

  lemma PollKeepsInv(rev: Revision, s: System, which: nat)
    requires Inv(rev, s) && Enabled(s, Poll(which))
    requires rev.Repaired? || |s.results| < |s.h.cq|
    ensures Inv(rev, Next(rev, s, Poll(which)))
  {
    if rev.AsShipped? {
      FirstLap(|s.results|, |s.h.cq|);
    }
    PollReturnsOwnCompletion(rev, s, which);
    PollKeepsCounters(rev, s, which);
    PollKeepsRings(rev, s, which);
    PollKeepsPlaces(rev, s, which);
  }

  lemma PollKeepsCounters(rev: Revision, s: System, which: nat)
    requires Inv(rev, s) && Enabled(s, Poll(which)) && |s.results| < |s.posted|
    ensures Counters(rev, Next(rev, s, Poll(which)))
  {
    Advance(|s.results|, |s.h.cq|);
  }

  lemma PollKeepsRings(rev: Revision, s: System, which: nat)
    requires Inv(rev, s) && Enabled(s, Poll(which)) && |s.results| < |s.posted|
    ensures Rings(Next(rev, s, Poll(which)))
  {
    var s' := Next(rev, s, Poll(which));
    assert forall j: nat | j < |s.posted| :: Entry(s', j) == Entry(s, j);
  }

  lemma PollKeepsPlaces(rev: Revision, s: System, which: nat)
    requires Inv(rev, s) && Enabled(s, Poll(which)) && |s.results| < |s.posted|
    requires Done(which, s.h.cq[s.h.cmpIdx].status) == s.posted[|s.results|]
    ensures Places(Next(rev, s, Poll(which)))
  {
    hide CidOf, Entry;
  }

  lemma StepKeepsInv(rev: Revision, s: System, step: Step)
    requires Inv(rev, s) && Enabled(s, step)
    requires step.Poll? ==> rev.Repaired? || |s.results| < |s.h.cq|
    ensures Inv(rev, Next(rev, s, step))
  {
    match step
    case Submit => SubmitKeepsInv(rev, s);
    case Fetch => FetchKeepsInv(rev, s);
    case Post(i, status) => PostKeepsInv(rev, s, i, status);
    case Poll(which) => PollKeepsInv(rev, s, which);
  }

  lemma InitHasInv(rev: Revision, id: nat, subObjs: nat, cmpObjs: nat)
    requires 2 <= subObjs <= 0x100 && 2 <= cmpObjs
    ensures Inv(rev, Init(id, subObjs, cmpObjs))
  {
    FirstLap(0, subObjs);
    FirstLap(0, cmpObjs);
  }

  // ---------------------------------------------------------------- progress

  /** A command that is waited for is in its ring, with the controller, or posted and not yet polled. */
  lemma WaitedForIsSomewhere(s: System, j: nat)
    requires Shape(s) && Places(s) && j in s.waiting
    ensures s.fetched <= j < s.submitted || s.c.pending != [] || |s.results| < |s.posted|
  {
    if j < s.fetched && s.c.pending == [] {
      assert IsPosted(s.posted, j);
    }
  }

  /** The step that is next for some command: poll the oldest completion, else fetch, else post. */
  function NextStep(s: System): Step {
    if |s.results| < |s.posted| then Poll(s.posted[|s.results|].which)
    else if s.fetched < s.submitted then Fetch
    else Post(0, 0)
  }

  /** As long as a command is waited for, the pair does not deadlock: that step can be taken. */
  lemma WaitingCanProceed(rev: Revision, s: System)
    requires Inv(rev, s) && s.waiting != {}
    requires ExpectedPhase(rev, |s.results|, |s.h.cq|) == Lap(|s.results|, |s.h.cq|)
    ensures Enabled(s, NextStep(s)) && !NextStep(s).Submit?
  {
    var j :| j in s.waiting;
    WaitedForIsSomewhere(s, j);
    if |s.results| < |s.posted| {
      OldestCanBePolled(rev, s, s.posted[|s.results|].which);
    } else if s.fetched < s.submitted {
      WindowIsInjective(s.fetched, s.submitted, |s.h.sq|);
    } else {
      Advance(|s.posted|, |s.h.cq|);
    }
  }

  // ---------------------------------------------------------------- runs

  /** `steps` can be taken one after the other from `s`. */
  ghost predicate Runs(rev: Revision, s: System, steps: seq<Step>)
    decreases |steps|
  {
    steps == [] || (Shape(s) && Enabled(s, steps[0]) && Runs(rev, Next(rev, s, steps[0]), steps[1..]))
  }

  ghost function End(rev: Revision, s: System, steps: seq<Step>): System
    requires Runs(rev, s, steps)
    decreases |steps|
  {
    if steps == [] then s else End(rev, Next(rev, s, steps[0]), steps[1..])
  }

  lemma {:induction false} RunsAppend(rev: Revision, s: System, steps: seq<Step>, step: Step)
    requires Runs(rev, s, steps)
    requires Shape(End(rev, s, steps)) && Enabled(End(rev, s, steps), step)
    ensures Runs(rev, s, steps + [step])
    ensures End(rev, s, steps + [step]) == Next(rev, End(rev, s, steps), step)
    decreases |steps|
  {
    if steps == [] {
      assert [step][1..] == [];
      assert Runs(rev, Next(rev, s, step), []);
    } else {
      RunsAppend(rev, Next(rev, s, steps[0]), steps[1..], step);
      assert (steps + [step])[1..] == steps[1..] + [step];
    }
  }

  /** Every poll so far returned what the controller posted for its own command, in the order of posting and each
      completion once. */
  ghost predicate Safe(s: System) {
    s.results <= s.posted && forall k, l | 0 <= k < l < |s.results| :: s.results[k].which != s.results[l].which
  }

  /** With one phase flip per lap every run is safe, over any number of laps of either ring. */
  lemma {:induction false} RepairedRunsAreSafe(s: System, steps: seq<Step>)
    requires Inv(Repaired, s) && Runs(Repaired, s, steps)
    ensures Inv(Repaired, End(Repaired, s, steps)) && Safe(End(Repaired, s, steps))
    decreases |steps|
  {
    if steps != [] {
      StepKeepsInv(Repaired, s, steps[0]);
      RepairedRunsAreSafe(Next(Repaired, s, steps[0]), steps[1..]);
    }
  }

  /** What is still to do: fetch, post and poll for each command in its ring, and so on. */
  function Remaining(s: System): int {
    3 * (s.submitted - s.fetched) + 2 * |s.c.pending| + (|s.posted| - |s.results|)
  }

  /** From every state of the repaired pair a run without new submissions ends with every command polled, each once. */
  lemma {:induction false} RepairedPairDrains(s: System) returns (steps: seq<Step>)
    requires Inv(Repaired, s)
    ensures Runs(Repaired, s, steps) && Submit !in steps
    ensures var t := End(Repaired, s, steps);
            && t.submitted == s.submitted && t.waiting == {} && Safe(t)
            && forall j: nat | j < s.submitted :: IsPosted(t.results, j)
    decreases Remaining(s)
  {
    if s.waiting == {} {
      steps := [];
      AllArePolled(s);
    } else {
      WaitingCanProceed(Repaired, s);
      var step := NextStep(s);
      StepKeepsInv(Repaired, s, step);
      RemainingShrinks(s, step);
      hide Inv, Enabled, Shape, Next, Safe, IsPosted, NextStep;
      var rest := RepairedPairDrains(Next(Repaired, s, step));
      steps := [step] + rest;
      assert steps[1..] == rest;
      HasShape(Repaired, s);
    }
  }

  lemma RemainingShrinks(s: System, step: Step)
    requires Inv(Repaired, s) && Enabled(s, step) && !step.Submit?
    ensures 0 <= Remaining(Next(Repaired, s, step)) < Remaining(s)
    ensures Next(Repaired, s, step).submitted == s.submitted
  {
    StepKeepsInv(Repaired, s, step);
  }

  lemma OpenIsWaitedFor(s: System)
    requires Shape(s) && Places(s)
    ensures s.c.pending != [] ==> s.c.pending[0].which in s.waiting
    ensures |s.results| < |s.posted| ==> s.posted[|s.results|].which in s.waiting
  {
    hide CidOf, Slot;
  }

  lemma AllArePolled(s: System)
    requires Inv(Repaired, s) && s.waiting == {}
    ensures Safe(s) && forall j: nat | j < s.submitted :: IsPosted(s.results, j)
  {
    hide Rings, CidOf, Slot, Lap, ValidHost;
    OpenIsWaitedFor(s);
    assert s.results == s.posted;
    forall j: nat | j < s.submitted
      ensures IsPosted(s.results, j)
    {
      assert s.fetched <= j ==> j in s.waiting;
    }
  }

  /** A command still waited for is one that has not been consumed. */
  lemma ConsumedBelowSubmitted(s: System, which: nat)
    requires Shape(s) && Places(s) && s.fetched <= s.submitted && which in s.waiting
    ensures |s.results| < s.submitted
  {
    DistinctCount(s.results);
    var done := set k | 0 <= k < |s.results| :: s.results[k].which;
    assert forall k | 0 <= k < |s.results| :: s.results[k] == s.posted[k];
    BoundedSet(done + {which}, s.submitted);
  }

  lemma {:induction false} ShippedRunKeepsInv(s: System, steps: seq<Step>)
    requires Inv(AsShipped, s) && Runs(AsShipped, s, steps)
    requires End(AsShipped, s, steps).submitted <= |s.h.cq|
    ensures Inv(AsShipped, End(AsShipped, s, steps)) && Safe(End(AsShipped, s, steps))
    decreases |steps|
  {
    if steps != [] {
      var step, s' := steps[0], Next(AsShipped, s, steps[0]);
      SubmittedGrows(AsShipped, s', steps[1..]);
      if step.Poll? {
        ConsumedBelowSubmitted(s, step.which);
      }
      StepKeepsInv(AsShipped, s, step);
      ShippedRunKeepsInv(s', steps[1..]);
    }
  }

  lemma {:induction false} SubmittedGrows(rev: Revision, s: System, steps: seq<Step>)
    requires Runs(rev, s, steps)
    ensures s.submitted <= End(rev, s, steps).submitted
    decreases |steps|
  {
    if steps != [] {
      SubmittedGrows(rev, Next(rev, s, steps[0]), steps[1..]);
    }
  }

  // ---------------------------------------------------------------- the shipped code on its second lap

  /** All `r` commands so far were submitted, completed and polled one at a time. */
  ghost predicate Quiet(s: System, r: nat) {
    && Inv(AsShipped, s) && s.submitted == s.fetched == |s.posted| == |s.results| == r
    && s.waiting == {} && s.c.pending == [] && forall k | 0 <= k < r :: s.posted[k].which == k
  }

  lemma {:induction false} SyncRounds(id: nat, m: nat, n: nat, r: nat) returns (steps: seq<Step>)
    requires 2 <= m <= 0x100 && 2 <= n && r <= n
    ensures Runs(AsShipped, Init(id, m, n), steps)
    ensures var s := End(AsShipped, Init(id, m, n), steps);
            Quiet(s, r) && |s.h.sq| == m && |s.h.cq| == n && s.h.id == id
  {
    var init := Init(id, m, n);
    if r == 0 {
      InitHasInv(AsShipped, id, m, n);
      steps := [];
    } else {
      var before := SyncRounds(id, m, n, r - 1);
      steps := before + [Submit] + [Fetch] + [Post(0, 0)] + [Poll(r - 1)];
      RoundAppends(init, before, r - 1);
    }
  }

  /** Rings and number of a pair. */
  ghost predicate SameSizes(s: System, s': System) {
    |s'.h.sq| == |s.h.sq| && |s'.h.cq| == |s.h.cq| && s'.h.id == s.h.id
  }

  lemma RoundAppends(init: System, steps: seq<Step>, r: nat)
    requires Runs(AsShipped, init, steps)
    requires Quiet(End(AsShipped, init, steps), r) && r < |End(AsShipped, init, steps).h.cq|
    ensures var steps' := steps + [Submit] + [Fetch] + [Post(0, 0)] + [Poll(r)];
            && Runs(AsShipped, init, steps')
            && Quiet(End(AsShipped, init, steps'), r + 1)
            && SameSizes(End(AsShipped, init, steps), End(AsShipped, init, steps'))
  {
    hide *;
    SyncRound(End(AsShipped, init, steps), r);
    QuietHasShape(End(AsShipped, init, steps), r);
    RunsAppend(AsShipped, init, steps, Submit);
    RunsAppend(AsShipped, init, steps + [Submit], Fetch);
    RunsAppend(AsShipped, init, steps + [Submit] + [Fetch], Post(0, 0));
    RunsAppend(AsShipped, init, steps + [Submit] + [Fetch] + [Post(0, 0)], Poll(r));
  }

  lemma QuietHasShape(s: System, r: nat)
    requires Quiet(s, r)
    ensures Shape(s)
  {}

  lemma SyncRound(s: System, r: nat)
    requires Quiet(s, r) && r < |s.h.cq|
    ensures Enabled(s, Submit)
    ensures var s1 := Next(AsShipped, s, Submit);
            && Shape(s1) && Enabled(s1, Fetch)
            && var s2 := Next(AsShipped, s1, Fetch);
            && Shape(s2) && Enabled(s2, Post(0, 0))
            && var s3 := Next(AsShipped, s2, Post(0, 0));
            && Shape(s3) && Enabled(s3, Poll(r))
            && Quiet(Next(AsShipped, s3, Poll(r)), r + 1)
            && SameSizes(s, Next(AsShipped, s3, Poll(r)))
  {
    var s1 := Next(AsShipped, s, Submit);
    RoundSubmit(s, r);
    var s2 := Next(AsShipped, s1, Fetch);
    RoundFetch(s1, r);
    RoundPost(s2, r);
    hide *;
    RoundPoll(s, s1, s2, Next(AsShipped, s2, Post(0, 0)), r);
  }

  /** Command `r` is waited for, `f` commands are fetched, `p` posted, and `r` polled. */
  ghost predicate Stage(s: System, r: nat, f: nat, p: nat) {
    && Inv(AsShipped, s) && s.waiting == {r} && s.submitted == r + 1
    && s.fetched == f && |s.posted| == p && |s.results| == r
    && |s.c.pending| == f - p && (forall i | 0 <= i < f - p :: s.c.pending[i].which == r)
    && forall k | 0 <= k < p :: s.posted[k].which == k
  }

  lemma RoundSubmit(s: System, r: nat)
    requires Quiet(s, r)
    ensures Enabled(s, Submit) && Stage(Next(AsShipped, s, Submit), r, r, r)
    ensures |Next(AsShipped, s, Submit).h.cq| == |s.h.cq|
    ensures Enabled(Next(AsShipped, s, Submit), Fetch)
  {
    Advance(r, |s.h.sq|);
    SubmitKeepsInv(AsShipped, s);
  }

  lemma RoundFetch(s: System, r: nat)
    requires Stage(s, r, r, r) && Enabled(s, Fetch)
    ensures Stage(Next(AsShipped, s, Fetch), r, r + 1, r)
    ensures |Next(AsShipped, s, Fetch).h.cq| == |s.h.cq|
    ensures Enabled(Next(AsShipped, s, Fetch), Post(0, 0))
  {
    Advance(r, |s.h.cq|);
    FetchKeepsInv(AsShipped, s);
    assert s.h.sq[s.c.sqHead] == Command(CidOf(s.h.id, Slot(r, |s.h.sq|)), r);
  }

  lemma RoundPost(s: System, r: nat)
    requires Stage(s, r, r + 1, r) && Enabled(s, Post(0, 0)) && r < |s.h.cq|
    ensures Stage(Next(AsShipped, s, Post(0, 0)), r, r + 1, r + 1)
    ensures |Next(AsShipped, s, Post(0, 0)).h.cq| == |s.h.cq|
    ensures Enabled(Next(AsShipped, s, Post(0, 0)), Poll(r))
  {
    PostKeepsInv(AsShipped, s, 0, 0);
    FirstLap(r, |s.h.cq|);
    HeadMatchesIffUnread(AsShipped, Next(AsShipped, s, Post(0, 0)));
  }

  lemma RoundPoll(s: System, s1: System, s2: System, s3: System, r: nat)
    requires Stage(s3, r, r + 1, r + 1) && Shape(s3) && Enabled(s3, Poll(r)) && r < |s3.h.cq|
    requires Shape(s) && Enabled(s, Submit) && s1 == Next(AsShipped, s, Submit)
    requires Shape(s1) && Enabled(s1, Fetch) && s2 == Next(AsShipped, s1, Fetch)
    requires Shape(s2) && Enabled(s2, Post(0, 0)) && s3 == Next(AsShipped, s2, Post(0, 0))
    ensures Quiet(Next(AsShipped, s3, Poll(r)), r + 1)
    ensures SameSizes(s, Next(AsShipped, s3, Poll(r)))
  {
    PollKeepsInv(AsShipped, s3, r);
  }

  /** One command more than the completion ring has slots: its poll returns at once, with the completion of the very
      first command, before the controller has even fetched the new one. */
  lemma ShippedPollReturnsStale(id: nat, m: nat, n: nat) returns (steps: seq<Step>)
    requires 2 <= m <= 0x100 && 2 <= n && n % m == 0
    ensures Runs(AsShipped, Init(id, m, n), steps)
    ensures var s := End(AsShipped, Init(id, m, n), steps);
            s.submitted == n + 1 && s.fetched == |s.posted| == n && |s.results| == n + 1 && !Safe(s)
  {
    steps := SyncRounds(id, m, n, n);
    var init := Init(id, m, n);
    var s := End(AsShipped, init, steps);
    SubmitKeepsInv(AsShipped, s);
    var s1 := Next(AsShipped, s, Submit);
    OneLapBack(n, n);
    FirstLap(0, n);
    FirstLap(0, m);
    assert Slot(n, m) == 0;
    assert s1.h.cq[Slot(0, n)] == Entry(s1, 0);
    RunsAppend(AsShipped, init, steps, Submit);
    RunsAppend(AsShipped, init, steps + [Submit], Poll(n));
    steps := steps + [Submit] + [Poll(n)];
  }

  /** The shipped code is safe on every run of up to `k` commands exactly when `k` is no more than the completion ring
      holds: 256 for both the admin pair and the I/O pairs, whose submission rings hold 64. */
  lemma ShippedRunsAreSafeIff(id: nat, m: nat, n: nat, k: nat)
    requires 2 <= m <= 0x100 && 2 <= n && n % m == 0
    ensures (forall steps | Runs(AsShipped, Init(id, m, n), steps)
              && End(AsShipped, Init(id, m, n), steps).submitted <= k ::
               Safe(End(AsShipped, Init(id, m, n), steps)))
       <==> k <= n
  {
    if k <= n {
      InitHasInv(AsShipped, id, m, n);
      forall steps | Runs(AsShipped, Init(id, m, n), steps) && End(AsShipped, Init(id, m, n), steps).submitted <= k
        ensures Safe(End(AsShipped, Init(id, m, n), steps))
      {
        ShippedRunKeepsInv(Init(id, m, n), steps);
      }
    } else {
      var steps := ShippedPollReturnsStale(id, m, n);
    }
  }
}
