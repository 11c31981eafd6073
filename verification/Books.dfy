/** The trackers of all heights around the tip, as a value, over whole runs of blocks and
    approvals. */
module Books {
  import opened Basics
  import opened Naturals
  import opened Approvals
  import opened Stakes
  import opened Trackers
  import opened VoteRuns

  const MAX_HEIGHTS_AHEAD_TO_STORE_APPROVALS: Height := 10_000
  const MAX_HEIGHTS_BEFORE_TO_STORE_APPROVALS: Height := 20

  /** The heights kept when the tip moves to `tip`. */
  predicate Retained(tip: Height, h: Height) {
    SaturatingSub(tip, MAX_HEIGHTS_BEFORE_TO_STORE_APPROVALS) < h <= tip + MAX_HEIGHTS_AHEAD_TO_STORE_APPROVALS
  }

  /** The heights approvals are taken for. */
  predicate InHorizon(tip: Height, h: Height) {
    tip <= h <= tip + MAX_HEIGHTS_AHEAD_TO_STORE_APPROVALS
  }

  function Target(c: Call): Height {
    c.approval.content.targetHeight
  }

  ghost function At(heights: map<Height, HeightState>, h: Height): HeightState {
    if h in heights then heights[h] else EMPTY
  }

  ghost function Pruned(heights: map<Height, HeightState>, tip: Height): map<Height, HeightState> {
    map h | h in heights && Retained(tip, h) :: heights[h]
  }

  ghost function Recorded(heights: map<Height, HeightState>, c: Call, mode: ThresholdMode)
    : map<Height, HeightState>
  {
    heights[Target(c) := At(heights, Target(c)).Processed(c.now, c.approval, c.stakes, mode)]
  }

  /** Whether the approval just recorded stands over the threshold. */
  ghost function VerdictOf(heights: map<Height, HeightState>, c: Call): Readiness {
    var trackers := At(heights, Target(c)).trackers;
    if Sender(c) in c.stakes && Inner(c) in trackers then trackers[Inner(c)].Readiness() else NotReady
  }

  datatype Book = Book(
    heights: map<Height, HeightState>,
    tip: Height,
    largestTarget: Height,
    largestThreshold: Height)
  {
    ghost function OnBlock(height: Height): Book {
      this.(heights := Pruned(heights, height), tip := height)
    }

    ghost function Taking(c: Call, mode: ThresholdMode): Book {
      var now := Recorded(heights, c, mode);
      Book(
        now,
        tip,
        Max(Target(c), largestTarget),
        if VerdictOf(now, c).ReadySince? then Max(Target(c), largestThreshold) else largestThreshold)
    }

    /** Approvals outside the horizon of the tip change nothing. */
    ghost function OnApproval(c: Call, mode: ThresholdMode): Book {
      if InHorizon(tip, Target(c)) then Taking(c, mode) else this
    }

    ghost predicate ReadyAt(h: Height, k: ApprovalInner) {
      k in At(heights, h).trackers && At(heights, h).trackers[k].Ready()
    }
  }

  const NEW: Book := Book(map[], 0, 0, 0)

  datatype Event = Block(height: Height) | Approval(call: Call)

  ghost function Step(b: Book, e: Event, mode: ThresholdMode): Book {
    match e
    case Block(height) => b.OnBlock(height)
    case Approval(c) => b.OnApproval(c, mode)
  }

  /** The book of a new instance after these events. */
  ghost function After(events: seq<Event>, mode: ThresholdMode): Book
    decreases |events|
  {
    if events == [] then NEW else Step(After(events[..|events| - 1], mode), events[|events| - 1], mode)
  }

  function Tip(events: seq<Event>): Height
    decreases |events|
  {
    if events == [] then 0 else
    var e := events[|events| - 1];
    if e.Block? then e.height else Tip(events[..|events| - 1])
  }

  /** The approvals of a height that were taken since it was last forgotten. */
  function CallsSince(events: seq<Event>, h: Height): seq<Call>
    decreases |events|
  {
    if events == [] then [] else
    var e, front := events[|events| - 1], events[..|events| - 1];
    var before := CallsSince(front, h);
    match e
    case Block(height) =>
      if 0 < h && height < h + MAX_HEIGHTS_BEFORE_TO_STORE_APPROVALS && h <= height + MAX_HEIGHTS_AHEAD_TO_STORE_APPROVALS
      then before else []
    case Approval(c) =>
      if Target(c) == h && Tip(front) <= h <= Tip(front) + MAX_HEIGHTS_AHEAD_TO_STORE_APPROVALS
      then before + [c] else before
  }

  lemma RunStep(calls: seq<Call>, c: Call, mode: ThresholdMode)
    ensures Run(calls + [c], mode) == Run(calls, mode).Processed(c.now, c.approval, c.stakes, mode)
  {
    hide HeightState.Processed;
    var more := calls + [c];
    assert more[..|more| - 1] == calls && more[|more| - 1] == c;
  }

  /** Over any run, a height is tracked exactly when approvals of it were taken since it was last
      forgotten, and its trackers are those that a run of just these approvals leads to. */
  lemma {:induction false} TrackedHeightsAreRuns(events: seq<Event>, mode: ThresholdMode, h: Height)
    ensures After(events, mode).tip == Tip(events)
    ensures h in After(events, mode).heights <==> CallsSince(events, h) != []
    ensures At(After(events, mode).heights, h) == Run(CallsSince(events, h), mode)
    decreases |events|
  {
    hide HeightState.Processed, VerdictOf;
    if events != [] {
      var e, front := events[|events| - 1], events[..|events| - 1];
      TrackedHeightsAreRuns(front, mode, h);
      if e.Approval? && Target(e.call) == h && InHorizon(Tip(front), h) {
        RunStep(CallsSince(front, h), e.call, mode);
      }
    }
  }

  /** All approvals of a height. */
  function CallsTo(events: seq<Event>, h: Height): seq<Call>
    decreases |events|
  {
    if events == [] then [] else
    var e, before := events[|events| - 1], CallsTo(events[..|events| - 1], h);
    if e.Approval? && Target(e.call) == h then before + [e.call] else before
  }

  lemma {:induction false} TakenWereSent(events: seq<Event>, h: Height, c: Call)
    requires c in CallsSince(events, h)
    ensures c in CallsTo(events, h)
    decreases |events|
  {
    var e, front := events[|events| - 1], events[..|events| - 1];
    if c in CallsSince(front, h) {
      TakenWereSent(front, h, c);
    }
  }

  lemma {:induction false} SentEarlierOn(events: seq<Event>, n: nat, h: Height, c: Call)
    requires n <= |events| && c in CallsTo(events[..n], h)
    ensures c in CallsTo(events, h)
    decreases |events| - n
  {
    if n < |events| {
      assert events[..n + 1][..n] == events[..n];
      SentEarlierOn(events, n + 1, h, c);
    } else {
      assert events[..n] == events;
    }
  }

  lemma TakenAreFixed(events: seq<Event>, n: nat, h: Height, stakes: StakeMap)
    requires n <= |events| && FixedStakes(CallsTo(events, h), stakes)
    ensures FixedStakes(CallsSince(events[..n], h), stakes)
  {
    var taken := CallsSince(events[..n], h);
    forall i | 0 <= i < |taken| ensures taken[i].stakes == stakes {
      TakenWereSent(events[..n], h, taken[i]);
      SentEarlierOn(events, n, h, taken[i]);
    }
  }

  lemma TakenWasSent(events: seq<Event>, n: nat, h: Height, a: Address, k: ApprovalInner)
    requires n <= |events| && Sent(CallsSince(events[..n], h), a, k)
    ensures Sent(CallsTo(events, h), a, k)
  {
    var taken := CallsSince(events[..n], h);
    var i :| 0 <= i < |taken| && Sender(taken[i]) == a && Inner(taken[i]) == k;
    TakenWereSent(events[..n], h, taken[i]);
    SentEarlierOn(events, n, h, taken[i]);
  }

  /** Quorum safety over any run of blocks and approvals: at any moment one approval of each
      height at most is over the threshold. */
  lemma OneReadyAtEachHeight(events: seq<Event>, stakes: StakeMap, h: Height, k: ApprovalInner, j: ApprovalInner)
    requires FixedStakes(CallsTo(events, h), stakes)
    requires After(events, TwoThirds).ReadyAt(h, k) && After(events, TwoThirds).ReadyAt(h, j)
    ensures k == j
  {
    TrackedHeightsAreRuns(events, TwoThirds, h);
    assert events[..|events|] == events;
    TakenAreFixed(events, |events|, h, stakes);
    AtMostOneReady(CallsSince(events, h), stakes, k, j);
  }

  /** And over time, also where the height was forgotten in between: two approvals of a height that
      pass at two moments of a run convict more than a third of the stake. */
  lemma ConflictsAreAccountable(
      events: seq<Event>, n: nat, m: nat, stakes: StakeMap, h: Height, k: ApprovalInner, j: ApprovalInner)
    requires n <= |events| && m <= |events| && k != j && FixedStakes(CallsTo(events, h), stakes)
    requires After(events[..n], TwoThirds).ReadyAt(h, k) && After(events[..m], TwoThirds).ReadyAt(h, j)
    ensures 3 * Sum(stakes, Equivocators(CallsTo(events, h), k, j), ThisEpoch) > Total(stakes, ThisEpoch)
  {
    var first, second := CallsSince(events[..n], h), CallsSince(events[..m], h);
    TrackedHeightsAreRuns(events[..n], TwoThirds, h);
    TrackedHeightsAreRuns(events[..m], TwoThirds, h);
    TakenAreFixed(events, n, h, stakes);
    TakenAreFixed(events, m, h, stakes);
    forall v | Sent(first, v, k) && Sent(second, v, j) ensures v in Equivocators(CallsTo(events, h), k, j) {
      TakenWasSent(events, n, h, v, k);
      TakenWasSent(events, m, h, v, j);
      EquivocatorsExactly(CallsTo(events, h), k, j, v);
    }
    TwoRunsConflict(first, second, stakes, k, j, Equivocators(CallsTo(events, h), k, j));
  }

  /** Every height with a ready approval is at most the mark. */
  ghost predicate MarkCovers(b: Book) {
    forall h: Height, k :: b.ReadyAt(h, k) ==> h <= b.largestThreshold
  }

  lemma VerdictIsReady(heights: map<Height, HeightState>, c: Call)
    requires VerdictOf(heights, c).ReadySince?
    ensures Inner(c) in At(heights, Target(c)).trackers && At(heights, Target(c)).trackers[Inner(c)].Ready()
  {
  }

  lemma MarkStep(b: Book, e: Event, mode: ThresholdMode)
    requires MarkCovers(b)
    ensures MarkCovers(Step(b, e, mode))
    ensures Step(b, e, mode).largestThreshold >= b.largestThreshold
    ensures Step(b, e, mode).largestThreshold != b.largestThreshold ==>
      exists k :: Step(b, e, mode).ReadyAt(Step(b, e, mode).largestThreshold, k)
  {
    hide HeightState.Processed, TrackerState.Ready, TrackerState.Readiness;
    var next := Step(b, e, mode);
    forall h: Height, k | next.ReadyAt(h, k) ensures h <= next.largestThreshold {
      if !b.ReadyAt(h, k) {
        NewlyReady(At(b.heights, h), e.call, mode, k);
      }
    }
    if next.largestThreshold != b.largestThreshold {
      VerdictIsReady(next.heights, e.call);
      assert next.ReadyAt(next.largestThreshold, Inner(e.call));
    }
  }

  lemma NothingIsReady()
    ensures MarkCovers(NEW)
  {
  }

  /** The mark of a run is the greatest height at which any approval was ever over the
      threshold, or 0. */
  lemma {:induction false} MarkIsGreatestReady(events: seq<Event>, mode: ThresholdMode)
    ensures MarkCovers(After(events, mode))
    ensures forall n, h: Height, k :: 0 <= n <= |events| && After(events[..n], mode).ReadyAt(h, k) ==>
      h <= After(events, mode).largestThreshold
    ensures After(events, mode).largestThreshold != 0 ==>
      exists n, k :: 0 <= n <= |events| && After(events[..n], mode).ReadyAt(After(events, mode).largestThreshold, k)
    decreases |events|
  {
    hide Book.ReadyAt, Step;
    assert events[..|events|] == events;
    if events == [] {
      NothingIsReady();
    } else {
      var front := events[..|events| - 1];
      MarkIsGreatestReady(front, mode);
      MarkStep(After(front, mode), events[|events| - 1], mode);
      assert forall n :: 0 <= n < |events| ==> front[..n] == events[..n];
      forall n, h: Height, k | 0 <= n <= |events| && After(events[..n], mode).ReadyAt(h, k)
        ensures h <= After(events, mode).largestThreshold
      {
        if n < |events| {
          assert After(front[..n], mode).ReadyAt(h, k);
        } else {
          assert events[..n] == events;
        }
      }
    }
  }

  /** An approval is taken when its height is at the tip of the moment, or not too far ahead. */
  ghost predicate TakenAt(events: seq<Event>, i: int) {
    && 0 <= i < |events| && events[i].Approval?
    && Tip(events[..i]) <= Target(events[i].call) <= Tip(events[..i]) + MAX_HEIGHTS_AHEAD_TO_STORE_APPROVALS
  }

  /** The largest target is the greatest height of an approval that was taken, or 0. */
  lemma {:induction false} TargetIsGreatestTaken(events: seq<Event>, mode: ThresholdMode)
    ensures var b := After(events, mode);
      && b.tip == Tip(events)
      && (forall i :: TakenAt(events, i) ==> Target(events[i].call) <= b.largestTarget)
      && (b.largestTarget == 0 || exists i :: TakenAt(events, i) && Target(events[i].call) == b.largestTarget)
    decreases |events|
  {
    hide Recorded, VerdictOf, Pruned;
    if events != [] {
      var n := |events| - 1;
      var front := events[..n];
      TargetIsGreatestTaken(front, mode);
      forall i | 0 <= i < n ensures TakenAt(events, i) <==> TakenAt(front, i) {
        assert events[..i] == front[..i];
      }
      var before, b := After(front, mode), After(events, mode);
      if b.largestTarget == before.largestTarget != 0 {
        var i :| TakenAt(front, i) && Target(front[i].call) == before.largestTarget;
        assert TakenAt(events, i);
      } else if b.largestTarget != before.largestTarget {
        assert TakenAt(events, n);
      }
    }
  }
}
