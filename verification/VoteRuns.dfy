/** Whole runs of approvals at one target height. */
module VoteRuns {
  import opened Basics
  import opened Approvals
  import opened Stakes
  import opened Trackers
  import opened Wrappers

  datatype Call = Call(now: Instant, approval: ApprovalValidated, stakes: StakeMap)

  function Sender(c: Call): Address {
    c.approval.validator
  }

  function Inner(c: Call): ApprovalInner {
    c.approval.content.inner
  }

  const EMPTY := HeightState(map[], map[])

  /** The state of the trackers after a sequence of approvals. */
  ghost function Run(calls: seq<Call>, mode: ThresholdMode): HeightState {
    if calls == [] then EMPTY else
    var c := calls[|calls| - 1];
    Run(calls[..|calls| - 1], mode).Processed(c.now, c.approval, c.stakes, mode)
  }

  /** The vote that counts for an account: its last approval, unless it had no stake by then. */
  function LastVote(calls: seq<Call>, a: Address): Option<ApprovalInner> {
    if calls == [] then None else
    var c := calls[|calls| - 1];
    if Sender(c) == a then (if a in c.stakes then Some(Inner(c)) else None)
    else LastVote(calls[..|calls| - 1], a)
  }

  lemma EmptyIsWellFormed()
    ensures EMPTY.WellFormed() && EMPTY.Votes() == map[]
  {
  }

  /** For any sequence of approvals, with stake lists that may change between them, the
      incremental trackers are a recomputation from each account's last approval. */
  lemma {:induction false} RunIsLastVotes(calls: seq<Call>, mode: ThresholdMode)
    ensures Run(calls, mode).WellFormed()
    ensures forall a :: a in Run(calls, mode).Votes() <==> LastVote(calls, a).Some?
    ensures forall a :: a in Run(calls, mode).Votes() ==> Run(calls, mode).Votes()[a] == LastVote(calls, a).value
  {
    hide HeightState.WellFormed, HeightState.Votes, HeightState.Processed;
    if calls == [] {
      EmptyIsWellFormed();
    } else {
      var c, front := calls[|calls| - 1], calls[..|calls| - 1];
      RunIsLastVotes(front, mode);
      Run(front, mode).ProcessedVotes(c.now, c.approval, c.stakes, mode);
    }
  }

  /** An account is a witness of an approval exactly when that is its last vote. */
  lemma WitnessesAreLastVoters(calls: seq<Call>, mode: ThresholdMode, k: ApprovalInner, a: Address)
    ensures
      var s := Run(calls, mode);
      k in s.trackers && a in s.trackers[k].witnesses <==> LastVote(calls, a) == Some(k)
  {
    RunIsLastVotes(calls, mode);
    var s := Run(calls, mode);
    s.TrackersRecompute(k);
    assert a in Voters(s.Votes(), k) <==> LastVote(calls, a) == Some(k);
  }

  ghost predicate FixedStakes(calls: seq<Call>, stakes: StakeMap) {
    forall i :: 0 <= i < |calls| ==> calls[i].stakes == stakes
  }

  ghost predicate Uniform(s: HeightState, stakes: StakeMap, mode: ThresholdMode) {
    forall k :: k in s.trackers ==> s.trackers[k].accountStakes == stakes && s.trackers[k].mode == mode
  }

  lemma WithdrawnUniform(s: HeightState, v: Address, stakes: StakeMap, mode: ThresholdMode)
    requires Uniform(s, stakes, mode)
    ensures Uniform(s.Withdrawn(v), stakes, mode)
  {
  }

  lemma AcceptedUniform(s: HeightState, c: Call, mode: ThresholdMode)
    requires Uniform(s, c.stakes, mode)
    ensures Uniform(s.Accepted(c.now, c.approval, c.stakes, mode), c.stakes, mode)
  {
    var withTracker := s.Noted(Sender(c), Inner(c)).Opened(Inner(c), c.stakes, mode);
    assert Uniform(withTracker, c.stakes, mode);
  }

  lemma ProcessedUniform(s: HeightState, c: Call, mode: ThresholdMode)
    requires Uniform(s, c.stakes, mode)
    ensures Uniform(s.Processed(c.now, c.approval, c.stakes, mode), c.stakes, mode)
  {
    var w := s.Withdrawn(Sender(c));
    WithdrawnUniform(s, Sender(c), c.stakes, mode);
    AcceptedUniform(w, c, mode);
    hide Uniform, HeightState.Withdrawn, HeightState.Accepted;
  }

  lemma {:induction false} FixedStakesAreUniform(calls: seq<Call>, stakes: StakeMap, mode: ThresholdMode)
    requires FixedStakes(calls, stakes)
    ensures Uniform(Run(calls, mode), stakes, mode)
  {
    hide HeightState.Processed;
    if calls != [] {
      FixedStakesAreUniform(calls[..|calls| - 1], stakes, mode);
      ProcessedUniform(Run(calls[..|calls| - 1], mode), calls[|calls| - 1], mode);
    }
  }

  /** The approval `k` has passed the threshold after these calls. */
  ghost predicate ReadyAfter(calls: seq<Call>, mode: ThresholdMode, k: ApprovalInner) {
    k in Run(calls, mode).trackers && Run(calls, mode).trackers[k].Ready()
  }

  lemma ReadyIsVoterStake(calls: seq<Call>, stakes: StakeMap, k: ApprovalInner)
    requires FixedStakes(calls, stakes) && ReadyAfter(calls, TwoThirds, k)
    ensures OverTwoThirds(Sum(stakes, Voters(Run(calls, TwoThirds).Votes(), k), ThisEpoch), Total(stakes, ThisEpoch))
  {
    FixedStakesAreUniform(calls, stakes, TwoThirds);
    RunIsLastVotes(calls, TwoThirds);
    Run(calls, TwoThirds).TrackersRecompute(k);
  }

  /** Quorum safety: at any moment at most one approval per height is over the threshold. */
  lemma AtMostOneReady(calls: seq<Call>, stakes: StakeMap, k: ApprovalInner, j: ApprovalInner)
    requires FixedStakes(calls, stakes)
    requires ReadyAfter(calls, TwoThirds, k) && ReadyAfter(calls, TwoThirds, j)
    ensures k == j
  {
    ReadyIsVoterStake(calls, stakes, k);
    ReadyIsVoterStake(calls, stakes, j);
    var votes := Run(calls, TwoThirds).Votes();
    if k != j {
      assert Voters(votes, k) * Voters(votes, j) == {};
      QuorumIntersection(stakes, Voters(votes, k), Voters(votes, j), ThisEpoch);
    }
  }

  ghost predicate Sent(calls: seq<Call>, a: Address, k: ApprovalInner) {
    exists i :: 0 <= i < |calls| && Sender(calls[i]) == a && Inner(calls[i]) == k
  }

  lemma {:induction false} LastVoteWasSent(calls: seq<Call>, a: Address)
    requires LastVote(calls, a).Some?
    ensures Sent(calls, a, LastVote(calls, a).value)
  {
    var front := calls[..|calls| - 1];
    if Sender(calls[|calls| - 1]) != a {
      LastVoteWasSent(front, a);
      var i :| 0 <= i < |front| && Sender(front[i]) == a && Inner(front[i]) == LastVote(front, a).value;
      assert Sender(calls[i]) == a && Inner(calls[i]) == LastVote(calls, a).value;
    }
  }

  /** The accounts that sent both of two approvals. */
  ghost function Equivocators(calls: seq<Call>, k: ApprovalInner, j: ApprovalInner): set<Address> {
    set i | 0 <= i < |calls| && Sent(calls, Sender(calls[i]), k) && Sent(calls, Sender(calls[i]), j)
      :: Sender(calls[i])
  }

  lemma VotersSent(calls: seq<Call>, k: ApprovalInner, a: Address)
    requires a in Voters(Run(calls, TwoThirds).Votes(), k)
    ensures Sent(calls, a, k)
  {
    RunIsLastVotes(calls, TwoThirds);
    LastVoteWasSent(calls, a);
  }

  /** Approvals that pass in two runs, which may have anything or nothing in common: the accounts
      that sent the one in the first and the other in the second have more than a third of the
      stake, and so has any set that holds these. */
  lemma TwoRunsConflict(
      first: seq<Call>, second: seq<Call>, stakes: StakeMap, k: ApprovalInner, j: ApprovalInner, both: set<Address>)
    requires FixedStakes(first, stakes) && FixedStakes(second, stakes)
    requires ReadyAfter(first, TwoThirds, k) && ReadyAfter(second, TwoThirds, j)
    requires forall v :: Sent(first, v, k) && Sent(second, v, j) ==> v in both
    ensures 3 * Sum(stakes, both, ThisEpoch) > Total(stakes, ThisEpoch)
  {
    var a := Voters(Run(first, TwoThirds).Votes(), k);
    var b := Voters(Run(second, TwoThirds).Votes(), j);
    ReadyIsVoterStake(first, stakes, k);
    ReadyIsVoterStake(second, stakes, j);
    QuorumIntersection(stakes, a, b, ThisEpoch);
    forall v | v in a * b ensures v in both {
      VotersSent(first, k, v);
      VotersSent(second, j, v);
    }
    SumMonotone(stakes, a * b, both, ThisEpoch);
  }

  lemma SentEarlier(calls: seq<Call>, n: nat, a: Address, k: ApprovalInner)
    requires n <= |calls| && Sent(calls[..n], a, k)
    ensures Sent(calls, a, k)
  {
    var i :| 0 <= i < n && Sender(calls[..n][i]) == a && Inner(calls[..n][i]) == k;
    assert Sender(calls[i]) == a && Inner(calls[i]) == k;
  }

  lemma EquivocatorsExactly(calls: seq<Call>, k: ApprovalInner, j: ApprovalInner, v: Address)
    ensures v in Equivocators(calls, k, j) <==> Sent(calls, v, k) && Sent(calls, v, j)
  {
    if Sent(calls, v, k) && Sent(calls, v, j) {
      var i :| 0 <= i < |calls| && Sender(calls[i]) == v && Inner(calls[i]) == k;
      assert Sender(calls[i]) in Equivocators(calls, k, j);
    }
  }

  /** Accountable safety over time: if two different approvals of one height pass the
      threshold, even at different moments of a run, then accounts with more than a third
      of the stake sent both. */
  lemma ConflictingQuorumsAreAccountable(
      calls: seq<Call>, stakes: StakeMap, n: nat, m: nat, k: ApprovalInner, j: ApprovalInner)
    requires n <= |calls| && m <= |calls| && k != j && FixedStakes(calls, stakes)
    requires ReadyAfter(calls[..n], TwoThirds, k) && ReadyAfter(calls[..m], TwoThirds, j)
    ensures 3 * Sum(stakes, Equivocators(calls, k, j), ThisEpoch) > Total(stakes, ThisEpoch)
  {
    forall v | Sent(calls[..n], v, k) && Sent(calls[..m], v, j) ensures v in Equivocators(calls, k, j) {
      SentEarlier(calls, n, v, k);
      SentEarlier(calls, m, v, j);
      EquivocatorsExactly(calls, k, j, v);
    }
    TwoRunsConflict(calls[..n], calls[..m], stakes, k, j, Equivocators(calls, k, j));
  }

  /** So where no account ever sends two different approvals for the height, one approval
      at most ever passes. */
  lemma HonestRunsNeverConflict(
      calls: seq<Call>, stakes: StakeMap, n: nat, m: nat, k: ApprovalInner, j: ApprovalInner)
    requires n <= |calls| && m <= |calls| && FixedStakes(calls, stakes)
    requires forall x, y :: 0 <= x < |calls| && 0 <= y < |calls| ==>
      Sender(calls[x]) == Sender(calls[y]) ==> Inner(calls[x]) == Inner(calls[y])
    requires ReadyAfter(calls[..n], TwoThirds, k) && ReadyAfter(calls[..m], TwoThirds, j)
    ensures k == j
  {
    if k != j {
      assert Equivocators(calls, k, j) == {};
      ConflictingQuorumsAreAccountable(calls, stakes, n, m, k, j);
    }
  }

  lemma WithdrawnReady(s: HeightState, v: Address, k: ApprovalInner)
    ensures k in s.Withdrawn(v).trackers && s.Withdrawn(v).trackers[k].Ready() ==> k in s.trackers && s.trackers[k].Ready()
  {
    if v in s.last && s.last[v] == k && k in s.trackers && s.trackers[k].Without(v).Ready() {
      var t := s.trackers[k];
      PassesMonotone(t.accountStakes, t.Without(v).witnesses.Keys, t.witnesses.Keys, t.mode);
    }
    hide Passes;
  }

  /** An approval gets over the threshold only when it is itself recorded, and then the verdict
      says so. */
  lemma NewlyReady(s: HeightState, c: Call, mode: ThresholdMode, k: ApprovalInner)
    requires var s' := s.Processed(c.now, c.approval, c.stakes, mode);
      k in s'.trackers && s'.trackers[k].Ready() && !(k in s.trackers && s.trackers[k].Ready())
    ensures var s' := s.Processed(c.now, c.approval, c.stakes, mode);
      Sender(c) in c.stakes && k == Inner(c) && s'.trackers[k].Readiness().ReadySince?
  {
    WithdrawnReady(s, Sender(c), k);
    hide HeightState.Withdrawn, Passes;
    assert Sender(c) in c.stakes && k == Inner(c);
  }
}
