/** Since when an approval counts as ready: the instant a verdict gives, over whole runs. */
module ReadyTimes {
  import opened Approvals
  import opened Stakes
  import opened Trackers
  import opened VoteRuns
  import opened Wrappers

  /** Nobody but this account, if that, stands behind the approval. */
  ghost predicate NoOtherVoter(calls: seq<Call>, v: Address, k: ApprovalInner) {
    forall a :: LastVote(calls, a) == Some(k) ==> a == v
  }

  /** The last call opens a tracker for the approval: no other account stood behind it. */
  ghost predicate Opens(calls: seq<Call>, k: ApprovalInner) {
    calls != [] && (
      var c := calls[|calls| - 1];
      && Inner(c) == k && Sender(c) in c.stakes
      && NoOtherVoter(calls[..|calls| - 1], Sender(c), k))
  }

  /** The present tracker of the approval was opened by call `o - 1`. */
  ghost predicate OpenedBy(calls: seq<Call>, k: ApprovalInner, o: nat) {
    0 < o <= |calls| && Opens(calls[..o], k) && forall n :: o < n <= |calls| ==> !Opens(calls[..n], k)
  }

  /** Call `n - 1` is the first from there on after which the approval was over the threshold. */
  ghost predicate FirstReadyBy(calls: seq<Call>, mode: ThresholdMode, k: ApprovalInner, o: nat, n: nat) {
    && 0 < o <= n <= |calls| && ReadyAfter(calls[..n], mode, k)
    && forall m :: o <= m < n ==> !ReadyAfter(calls[..m], mode, k)
  }

  /** A tracker is dropped just when its last voter leaves. */
  lemma WithdrawnTracker(s: HeightState, v: Address, k: ApprovalInner)
    requires s.WellFormed()
    ensures k in s.Withdrawn(v).trackers <==> exists a :: a in Voters(s.Votes(), k) && a != v
    ensures k in s.Withdrawn(v).trackers ==>
      k in s.trackers && s.Withdrawn(v).trackers[k].timePassedThreshold == s.trackers[k].timePassedThreshold
  {
    s.TrackersRecompute(k);
    if k in s.trackers {
      var voters := Voters(s.Votes(), k);
      assert s.trackers[k].witnesses.Keys == voters;
      if v in s.last && s.last[v] == k {
        var left := s.trackers[k].Without(v).witnesses;
        assert left.Keys == voters - {v};
        if left != map[] {
          var a :| a in left;
          assert a in voters && a != v;
        } else {
          assert forall a :: a in voters && a != v ==> a in left.Keys;
        }
      } else {
        assert v !in voters;
        var a :| a in s.trackers[k].witnesses;
        assert a in voters && a != v;
      }
    }
  }

  lemma DroppedWithNoOtherVoter(calls: seq<Call>, mode: ThresholdMode, v: Address, k: ApprovalInner)
    ensures var s := Run(calls, mode); k in s.Withdrawn(v).trackers <==> !NoOtherVoter(calls, v, k)
  {
    RunIsLastVotes(calls, mode);
    var s := Run(calls, mode);
    WithdrawnTracker(s, v, k);
    assert forall a :: a in Voters(s.Votes(), k) <==> LastVote(calls, a) == Some(k);
    hide LastVote, HeightState.Votes, HeightState.WellFormed, HeightState.Withdrawn;
  }

  /** What processing does to the instant of a tracker, by what the withdrawal leaves of it. */
  lemma ProcessedInstant(s: HeightState, c: Call, mode: ThresholdMode, k: ApprovalInner)
    requires k in s.Processed(c.now, c.approval, c.stakes, mode).trackers
    ensures var (w, t) := (s.Withdrawn(Sender(c)), s.Processed(c.now, c.approval, c.stakes, mode).trackers[k]);
      var counted := Inner(c) == k && Sender(c) in c.stakes;
      && (counted || k in w.trackers)
      && var before := if k in w.trackers then w.trackers[k].timePassedThreshold else None;
         t.timePassedThreshold == if counted && t.Ready() && before.None? then Some(c.now) else before
  {
    hide HeightState.Withdrawn, Passes;
  }

  /** What a call does to the tracker of an approval: opens it, or finds it. */
  lemma OpenedOrFound(calls: seq<Call>, mode: ThresholdMode, k: ApprovalInner)
    requires calls != [] && k in Run(calls, mode).trackers
    ensures var (c, front) := (calls[|calls| - 1], calls[..|calls| - 1]);
      var (t, ready) := (Run(calls, mode).trackers[k], ReadyAfter(calls, mode, k));
      && (Opens(calls, k) ==> t.timePassedThreshold == if ready then Some(c.now) else None)
      && (!Opens(calls, k) ==>
            && k in Run(front, mode).trackers
            && var before := Run(front, mode).trackers[k].timePassedThreshold;
               t.timePassedThreshold ==
                 if before.None? && ready && Inner(c) == k && Sender(c) in c.stakes then Some(c.now) else before)
  {
    hide HeightState.WellFormed, HeightState.Votes, HeightState.Withdrawn, HeightState.Processed, TrackerState.Ready,
      LastVote, NoOtherVoter;
    var (c, front) := (calls[|calls| - 1], calls[..|calls| - 1]);
    var s := Run(front, mode);
    RunIsLastVotes(front, mode);
    WithdrawnTracker(s, Sender(c), k);
    DroppedWithNoOtherVoter(front, mode, Sender(c), k);
    ProcessedInstant(s, c, mode, k);
  }

  lemma NotEmptyRun(calls: seq<Call>, mode: ThresholdMode, k: ApprovalInner)
    requires k in Run(calls, mode).trackers
    ensures calls != []
  {
  }

  /** The call that opened a tracker. */
  lemma {:induction false} LastOpened(calls: seq<Call>, mode: ThresholdMode, k: ApprovalInner) returns (o: nat)
    requires k in Run(calls, mode).trackers
    ensures OpenedBy(calls, k, o)
  {
    hide Run, Opens;
    NotEmptyRun(calls, mode, k);
    if Opens(calls, k) {
      o := |calls|;
      assert calls[..o] == calls;
    } else {
      OpenedOrFound(calls, mode, k);
      var front := calls[..|calls| - 1];
      o := LastOpened(front, mode, k);
      assert front[..o] == calls[..o] && calls[..|calls|] == calls;
      assert forall n :: o < n < |calls| ==> front[..n] == calls[..n];
    }
  }

  lemma NewlyReadyCall(calls: seq<Call>, mode: ThresholdMode, k: ApprovalInner)
    requires calls != [] && ReadyAfter(calls, mode, k) && !ReadyAfter(calls[..|calls| - 1], mode, k)
    ensures var c := calls[|calls| - 1]; Sender(c) in c.stakes && Inner(c) == k
  {
    hide HeightState.Processed;
    NewlyReady(Run(calls[..|calls| - 1], mode), calls[|calls| - 1], mode, k);
  }

  /** The instant kept by the tracker: none while the approval was never over the threshold since
      the tracker was opened, or else the instant of the first call after which it was. */
  lemma {:induction false} PassedSince(calls: seq<Call>, mode: ThresholdMode, k: ApprovalInner, o: nat)
    requires k in Run(calls, mode).trackers && OpenedBy(calls, k, o)
    ensures match Run(calls, mode).trackers[k].timePassedThreshold
      case None => forall m :: o <= m <= |calls| ==> !ReadyAfter(calls[..m], mode, k)
      case Some(w) => exists n :: FirstReadyBy(calls, mode, k, o, n) && calls[n - 1].now == w
  {
    hide Run, Opens, ReadyAfter;
    var front := calls[..|calls| - 1];
    assert calls[..|calls|] == calls;
    assert forall n :: 0 <= n < |calls| ==> front[..n] == calls[..n];
    OpenedOrFound(calls, mode, k);
    if o == |calls| {
      if ReadyAfter(calls, mode, k) {
        assert FirstReadyBy(calls, mode, k, o, |calls|);
      }
    } else {
      PassedSince(front, mode, k, o);
      if Run(front, mode).trackers[k].timePassedThreshold.Some? {
        var w := Run(front, mode).trackers[k].timePassedThreshold.value;
        var n :| FirstReadyBy(front, mode, k, o, n) && front[n - 1].now == w;
        assert FirstReadyBy(calls, mode, k, o, n) && calls[n - 1] == front[n - 1];
      } else {
        assert !ReadyAfter(calls[..|calls| - 1], mode, k);
        if ReadyAfter(calls, mode, k) {
          NewlyReadyCall(calls, mode, k);
          assert FirstReadyBy(calls, mode, k, o, |calls|);
        }
      }
    }
  }

  /** Over any run: an approval is ready exactly when it is over the threshold, since the instant of
      the first call after which it was over it, counted from when its tracker was opened. Neither
      later approvals nor withdrawals reset that instant, unless the last voter leaves. */
  lemma ReadySinceExactly(calls: seq<Call>, mode: ThresholdMode, k: ApprovalInner)
    requires k in Run(calls, mode).trackers
    ensures exists o :: OpenedBy(calls, k, o)
    ensures forall o, w :: OpenedBy(calls, k, o) ==>
      (Run(calls, mode).trackers[k].Readiness() == ReadySince(w) <==>
         && ReadyAfter(calls, mode, k)
         && exists n :: FirstReadyBy(calls, mode, k, o, n) && calls[n - 1].now == w)
  {
    hide Run, Opens;
    var o := LastOpened(calls, mode, k);
    PassedSince(calls, mode, k, o);
    assert calls[..|calls|] == calls;
    hide ReadyAfter;
  }

  /** Several approvals counted by one tracker. */
  function WithAll(t: TrackerState, approvals: seq<ApprovalValidated>): TrackerState {
    if approvals == [] then t else WithAll(t, approvals[..|approvals| - 1]).With(approvals[|approvals| - 1])
  }

  lemma {:induction false} StrangersAreNoWitnesses(t: TrackerState, approvals: seq<ApprovalValidated>, v: Address)
    requires v !in t.witnesses && forall j :: 0 <= j < |approvals| ==> approvals[j].validator != v
    ensures v !in WithAll(t, approvals).witnesses
  {
    if approvals != [] {
      StrangersAreNoWitnesses(t, approvals[..|approvals| - 1], v);
    }
  }

  /** A tracker keeps the first approval of each account. */
  lemma {:induction false} FirstWitnessStays(t: TrackerState, approvals: seq<ApprovalValidated>, i: nat)
    requires i < |approvals| && approvals[i].validator !in t.witnesses
    requires forall j :: 0 <= j < i ==> approvals[j].validator != approvals[i].validator
    ensures var w, v := WithAll(t, approvals).witnesses, approvals[i].validator; v in w && w[v] == approvals[i]
    decreases |approvals|
  {
    var n := |approvals| - 1;
    if i < n {
      FirstWitnessStays(t, approvals[..n], i);
    } else {
      StrangersAreNoWitnesses(t, approvals[..n], approvals[n].validator);
    }
  }

  /** The last approval that an account sent. */
  function LastApproval(calls: seq<Call>, a: Address): Option<ApprovalValidated> {
    if calls == [] then None else
    var c := calls[|calls| - 1];
    if Sender(c) == a then Some(c.approval) else LastApproval(calls[..|calls| - 1], a)
  }

  lemma WithdrawnWitness(s: HeightState, v: Address, k: ApprovalInner, a: Address)
    requires s.WellFormed()
    ensures var w := s.Withdrawn(v);
      k in w.trackers && a in w.trackers[k].witnesses ==>
        a != v && k in s.trackers && a in s.trackers[k].witnesses
        && w.trackers[k].witnesses[a] == s.trackers[k].witnesses[a]
  {
  }

  lemma WitnessAfter(s: HeightState, c: Call, mode: ThresholdMode, k: ApprovalInner, a: Address)
    requires s.WellFormed()
    requires var s' := s.Processed(c.now, c.approval, c.stakes, mode); k in s'.trackers && a in s'.trackers[k].witnesses
    ensures var s' := s.Processed(c.now, c.approval, c.stakes, mode);
      if a == Sender(c) then s'.trackers[k].witnesses[a] == c.approval
      else k in s.trackers && a in s.trackers[k].witnesses && s'.trackers[k].witnesses[a] == s.trackers[k].witnesses[a]
  {
    var w := s.Withdrawn(Sender(c));
    WithdrawnWitness(s, Sender(c), k, a);
    hide HeightState.Withdrawn, HeightState.WellFormed;
  }

  /** Over any run, what a tracker holds of a witness is its last approval, signature and all. */
  lemma {:induction false} WitnessesAreLastApprovals(calls: seq<Call>, mode: ThresholdMode, k: ApprovalInner, a: Address)
    requires k in Run(calls, mode).trackers && a in Run(calls, mode).trackers[k].witnesses
    ensures LastApproval(calls, a) == Some(Run(calls, mode).trackers[k].witnesses[a])
  {
    NotEmptyRun(calls, mode, k);
    var (c, front) := (calls[|calls| - 1], calls[..|calls| - 1]);
    RunIsLastVotes(front, mode);
    Run(front, mode).WithdrawnVotes(Sender(c));
    WitnessAfter(Run(front, mode), c, mode, k, a);
    hide HeightState.Processed, HeightState.WellFormed, HeightState.Withdrawn;
    if Sender(c) != a {
      WitnessesAreLastApprovals(front, mode, k, a);
    }
  }
}
