/** Approval bookkeeping for one target height: a tracker for each distinct approval,
    with running stake sums, and at most one approval counted per account. */
module Trackers {
  import opened Basics
  import opened Approvals
  import opened Stakes
  import opened Wrappers

  datatype Readiness = NotReady | ReadySince(since: Instant)

  /** The sums over a stake map's values. */
  method SumStakes(stakes: StakeMap) returns (thisEpoch: Balance, nextEpoch: Balance)
    requires StakesFit(stakes)
    ensures thisEpoch == Total(stakes, ThisEpoch) && nextEpoch == Total(stakes, NextEpoch)
  {
    thisEpoch, nextEpoch := 0, 0;
    var rest := stakes.Keys;
    while rest != {}
      invariant rest <= stakes.Keys
      invariant thisEpoch + Sum(stakes, rest, ThisEpoch) == Total(stakes, ThisEpoch)
      invariant nextEpoch + Sum(stakes, rest, NextEpoch) == Total(stakes, NextEpoch)
      decreases rest
    {
      var a :| a in rest;
      SumRemove(stakes, rest, a, ThisEpoch);
      SumRemove(stakes, rest, a, NextEpoch);
      thisEpoch, nextEpoch := thisEpoch + stakes[a].thisEpoch, nextEpoch + stakes[a].nextEpoch;
      rest := rest - {a};
    }
  }

  /** A tracker as a value; its counters are sums over `witnesses`, so they are not part of it. */
  datatype TrackerState = TrackerState(
    witnesses: map<Address, ApprovalValidated>,
    accountStakes: StakeMap,
    mode: ThresholdMode,
    timePassedThreshold: Option<Instant>)
  {
    ghost predicate Ready() {
      Passes(accountStakes, witnesses.Keys, mode)
    }

    /** Remembers when the threshold was first found passed. */
    ghost function Checked(now: Instant): TrackerState {
      if Ready() && timePassedThreshold.None? then this.(timePassedThreshold := Some(now)) else this
    }

    ghost function Readiness(): Readiness {
      if Ready() && timePassedThreshold.Some? then ReadySince(timePassedThreshold.value) else NotReady
    }

    function With(approval: ApprovalValidated): TrackerState {
      if approval.validator in witnesses then this
      else this.(witnesses := witnesses[approval.validator := approval])
    }

    function Without(v: Address): TrackerState {
      this.(witnesses := witnesses - {v})
    }
  }

  class Tracker {
    var witnesses: map<Address, ApprovalValidated>
    var accountStakes: StakeMap
    var totalThisEpoch: Balance
    var approvedThisEpoch: Balance
    var totalNextEpoch: Balance
    var approvedNextEpoch: Balance
    var timePassedThreshold: Option<Instant>
    var thresholdMode: ThresholdMode

    /** The counters are the sums they stand for. */
    ghost predicate Valid()
      reads this
    {
      && StakesFit(accountStakes)
      && totalThisEpoch == Total(accountStakes, ThisEpoch)
      && totalNextEpoch == Total(accountStakes, NextEpoch)
      && approvedThisEpoch == Sum(accountStakes, witnesses.Keys, ThisEpoch)
      && approvedNextEpoch == Sum(accountStakes, witnesses.Keys, NextEpoch)
      && (forall a :: a in witnesses ==> witnesses[a].validator == a)
    }

    ghost function State(): TrackerState
      reads this
    {
      TrackerState(witnesses, accountStakes, thresholdMode, timePassedThreshold)
    }

    constructor (stakes: StakeMap, mode: ThresholdMode)
      requires StakesFit(stakes)
      ensures Valid() && State() == TrackerState(map[], stakes, mode, None)
    {
      var t, n := SumStakes(stakes);
      witnesses, accountStakes, thresholdMode := map[], stakes, mode;
      totalThisEpoch, totalNextEpoch := t, n;
      approvedThisEpoch, approvedNextEpoch := 0, 0;
      timePassedThreshold := None;
    }

    method GetBlockProductionReadiness(now: Instant) returns (r: Readiness)
      requires Valid()
      modifies this`timePassedThreshold
      ensures Valid() && State() == old(State()).Checked(now) && r == State().Readiness()
    {
      assert 2 * totalThisEpoch < U128_LIMIT && 2 * totalNextEpoch < U128_LIMIT;
      if (approvedThisEpoch > totalThisEpoch * 2 / 3
          && (approvedNextEpoch > totalNextEpoch * 2 / 3 || totalNextEpoch == 0))
         || thresholdMode == NoApprovals
      {
        if timePassedThreshold.None? {
          timePassedThreshold := Some(now);
        }
        r := ReadySince(timePassedThreshold.value);
      } else {
        r := NotReady;
      }
    }

    /** An account already counted is not counted twice. */
    method ProcessApproval(now: Instant, approval: ApprovalValidated) returns (r: Readiness)
      requires Valid()
      modifies this
      ensures Valid() && State() == old(State()).With(approval).Checked(now) && r == State().Readiness()
    {
      var v := approval.validator;
      if v !in witnesses {
        SumAdd(accountStakes, witnesses.Keys, v, ThisEpoch);
        SumAdd(accountStakes, witnesses.Keys, v, NextEpoch);
        SumAtMostTotal(accountStakes, witnesses.Keys + {v}, ThisEpoch);
        SumAtMostTotal(accountStakes, witnesses.Keys + {v}, NextEpoch);
        witnesses := witnesses[v := approval];
        assert witnesses.Keys == old(witnesses.Keys) + {v};
        var stakes := StakeOf(accountStakes, v);
        approvedThisEpoch := approvedThisEpoch + stakes.thisEpoch;
        approvedNextEpoch := approvedNextEpoch + stakes.nextEpoch;
      }
      r := GetBlockProductionReadiness(now);
    }

    /** The subtractions never go below zero. */
    method WithdrawApproval(v: Address)
      requires Valid()
      modifies this
      ensures Valid() && State() == old(State()).Without(v)
    {
      if v !in witnesses {
        assert witnesses - {v} == witnesses;
        return;
      }
      SumRemove(accountStakes, witnesses.Keys, v, ThisEpoch);
      SumRemove(accountStakes, witnesses.Keys, v, NextEpoch);
      var stakes := StakeOf(accountStakes, witnesses[v].validator);
      witnesses := witnesses - {v};
      assert witnesses.Keys == old(witnesses.Keys) - {v};
      approvedThisEpoch := approvedThisEpoch - stakes.thisEpoch;
      approvedNextEpoch := approvedNextEpoch - stakes.nextEpoch;
    }
  }

  datatype ApprovalStake = ApprovalStake(validator: Address, stake: Stake, slashed: bool)

  /** The map of the unslashed entries; a later entry for an account wins. */
  function StakesOf(stakes: seq<ApprovalStake>): StakeMap {
    if stakes == [] then map[] else
    var last := stakes[|stakes| - 1];
    var front := StakesOf(stakes[..|stakes| - 1]);
    if last.slashed then front else front[last.validator := last.stake]
  }

  /** What the caller owes: the assertion on the map's size, and sums that fit. */
  ghost predicate StakeListOk(stakes: seq<ApprovalStake>) {
    |StakesOf(stakes)| == |stakes| && StakesFit(StakesOf(stakes))
  }

  /** Which approval each counted account stands behind. */
  type Votes = map<Address, ApprovalInner>

  ghost function Voters(votes: Votes, inner: ApprovalInner): set<Address> {
    set a | a in votes && votes[a] == inner
  }

  /** What one approval does to the votes, given the accounts with stake. */
  function Revote(votes: Votes, staked: set<Address>, v: Address, inner: ApprovalInner): Votes {
    if v in staked then votes[v := inner] else votes - {v}
  }

  datatype HeightState = HeightState(
    trackers: map<ApprovalInner, TrackerState>,
    last: map<Address, ApprovalInner>)
  {
    /** No tracker is empty, and an account is a witness only where its last approval says. */
    ghost predicate WellFormed() {
      && (forall k :: k in trackers ==> trackers[k].witnesses != map[])
      && (forall k, a :: k in trackers && a in trackers[k].witnesses ==> a in last && last[a] == k)
    }

    /** The accounts that are a witness somewhere, with the approval they stand behind. */
    ghost function Votes(): Votes {
      map a | a in last && last[a] in trackers && a in trackers[last[a]].witnesses :: last[a]
    }

    /** Drops the account's former approval, and its tracker when nobody is left behind it. */
    function Withdrawn(v: Address): HeightState {
      if v in last && last[v] in trackers then
        var t := trackers[last[v]].Without(v);
        this.(trackers := if t.witnesses == map[] then trackers - {last[v]} else trackers[last[v] := t])
      else this
    }

    function Noted(v: Address, inner: ApprovalInner): HeightState {
      this.(last := last[v := inner])
    }

    function Opened(inner: ApprovalInner, stakes: StakeMap, mode: ThresholdMode): (s: HeightState)
      ensures inner in s.trackers
    {
      if inner in trackers then this else this.(trackers := trackers[inner := TrackerState(map[], stakes, mode, None)])
    }

    ghost function Tallied(now: Instant, approval: ApprovalValidated): (s: HeightState)
      requires approval.content.inner in trackers
      ensures approval.content.inner in s.trackers
    {
      var inner := approval.content.inner;
      this.(trackers := trackers[inner := trackers[inner].With(approval).Checked(now)])
    }

    ghost function Accepted(now: Instant, approval: ApprovalValidated, stakes: StakeMap, mode: ThresholdMode)
      : (s: HeightState)
      ensures approval.content.inner in s.trackers
    {
      Noted(approval.validator, approval.content.inner)
        .Opened(approval.content.inner, stakes, mode)
        .Tallied(now, approval)
    }

    ghost function Processed(now: Instant, approval: ApprovalValidated, stakes: StakeMap, mode: ThresholdMode)
      : (s: HeightState)
      ensures approval.validator in stakes ==> approval.content.inner in s.trackers
    {
      var w := Withdrawn(approval.validator);
      if approval.validator in stakes then w.Accepted(now, approval, stakes, mode) else w
    }

    ghost predicate Counted(a: Address) {
      a in last && last[a] in trackers && a in trackers[last[a]].witnesses
    }

    lemma WithdrawnCounted(v: Address, a: Address)
      requires WellFormed()
      ensures Withdrawn(v).Counted(a) <==> Counted(a) && a != v
    {
      if Counted(a) && a != v && v in last && last[v] == last[a] {
        assert a in trackers[last[v]].Without(v).witnesses;
      }
    }

    lemma WithdrawnWellFormed(v: Address)
      requires WellFormed()
      ensures Withdrawn(v).WellFormed()
    {
    }

    lemma WithdrawnLast(v: Address)
      ensures Withdrawn(v).last == last
    {
    }

    lemma WithdrawnVotes(v: Address)
      requires WellFormed()
      ensures Withdrawn(v).WellFormed() && Withdrawn(v).Votes() == Votes() - {v}
    {
      hide WellFormed, Withdrawn;
      WithdrawnWellFormed(v);
      assert Withdrawn(v).last == last by { WithdrawnLast(v); }
      forall a ensures a in Withdrawn(v).Votes() <==> a in Votes() - {v} {
        WithdrawnCounted(v, a);
      }
    }

    lemma AcceptedShape(now: Instant, approval: ApprovalValidated, stakes: StakeMap, mode: ThresholdMode)
      requires WellFormed() && !Counted(approval.validator)
      ensures
        var (v, inner) := (approval.validator, approval.content.inner);
        var s := Accepted(now, approval, stakes, mode);
        && s.last == last[v := inner]
        && s.trackers.Keys == trackers.Keys + {inner}
        && s.trackers[inner].witnesses.Keys == {v} + (if inner in trackers then trackers[inner].witnesses.Keys else {})
        && forall k :: k in trackers && k != inner ==> s.trackers[k] == trackers[k]
    {
    }

    lemma UncountedIsNowhere(v: Address)
      requires WellFormed() && !Counted(v)
      ensures forall k :: k in trackers ==> v !in trackers[k].witnesses
    {
    }

    lemma AcceptedWellFormed(now: Instant, approval: ApprovalValidated, stakes: StakeMap, mode: ThresholdMode)
      requires WellFormed() && !Counted(approval.validator)
      ensures Accepted(now, approval, stakes, mode).WellFormed()
    {
      hide Accepted;
      UncountedIsNowhere(approval.validator);
      AcceptedShape(now, approval, stakes, mode);
    }

    lemma AcceptedCounted(
        now: Instant, approval: ApprovalValidated, stakes: StakeMap, mode: ThresholdMode, a: Address)
      requires WellFormed() && !Counted(approval.validator)
      ensures Accepted(now, approval, stakes, mode).Counted(a) <==> Counted(a) || a == approval.validator
    {
    }

    lemma AcceptedVotes(now: Instant, approval: ApprovalValidated, stakes: StakeMap, mode: ThresholdMode)
      requires WellFormed() && !Counted(approval.validator)
      ensures Accepted(now, approval, stakes, mode).WellFormed()
      ensures Accepted(now, approval, stakes, mode).Votes() == Votes()[approval.validator := approval.content.inner]
    {
      hide Accepted, WellFormed;
      AcceptedWellFormed(now, approval, stakes, mode);
      AcceptedShape(now, approval, stakes, mode);
      var s := Accepted(now, approval, stakes, mode);
      forall a ensures a in s.Votes() <==> a in Votes() || a == approval.validator {
        AcceptedCounted(now, approval, stakes, mode, a);
      }
    }

    /** One approval counted for each account, its latest: processing an approval moves the
        account's vote, or drops it when the account has no stake. */
    lemma ProcessedVotes(now: Instant, approval: ApprovalValidated, stakes: StakeMap, mode: ThresholdMode)
      requires WellFormed()
      ensures Processed(now, approval, stakes, mode).WellFormed()
      ensures Processed(now, approval, stakes, mode).Votes()
           == Revote(Votes(), stakes.Keys, approval.validator, approval.content.inner)
    {
      hide WellFormed, Withdrawn, Accepted, Votes, Counted;
      WithdrawnVotes(approval.validator);
      WithdrawnCounted(approval.validator, approval.validator);
      if approval.validator in stakes {
        Withdrawn(approval.validator).AcceptedVotes(now, approval, stakes, mode);
        assert (Votes() - {approval.validator})[approval.validator := approval.content.inner]
            == Votes()[approval.validator := approval.content.inner];
      }
    }

    /** The trackers are a recomputation from the votes: they are those of the approvals voted
        for, and each tracker's witnesses are exactly its voters. */
    lemma TrackersRecompute(k: ApprovalInner)
      requires WellFormed()
      ensures k in trackers <==> Voters(Votes(), k) != {}
      ensures k in trackers ==> trackers[k].witnesses.Keys == Voters(Votes(), k)
    {
    }
  }

  class TrackersAtHeight {
    var approvalTrackers: map<ApprovalInner, Tracker>
    var lastApprovalPerAccount: map<Address, ApprovalInner>

    ghost function State(): HeightState
      reads this, approvalTrackers.Values
    {
      HeightState(map k | k in approvalTrackers :: approvalTrackers[k].State(), lastApprovalPerAccount)
    }

    /** Each approval has a tracker of its own, with sound counters. */
    ghost predicate Separate()
      reads this`approvalTrackers, approvalTrackers.Values
    {
      && (forall k :: k in approvalTrackers ==> approvalTrackers[k].Valid())
      && (forall k, j :: k in approvalTrackers && j in approvalTrackers && k != j ==>
            approvalTrackers[k] != approvalTrackers[j])
    }

    ghost predicate Valid()
      reads this, approvalTrackers.Values
    {
      Separate() && State().WellFormed()
    }

    ghost function Repr(): set<object>
      reads this`approvalTrackers
    {
      {this} + approvalTrackers.Values
    }

    constructor ()
      ensures Valid() && State() == HeightState(map[], map[]) && approvalTrackers == map[]
    {
      approvalTrackers, lastApprovalPerAccount := map[], map[];
    }

    /** Both running counters of every tracker are the stake of its present voters. */
    lemma CountersRecompute(k: ApprovalInner)
      requires Valid() && k in approvalTrackers
      ensures approvalTrackers[k].approvedThisEpoch
           == Sum(approvalTrackers[k].accountStakes, Voters(State().Votes(), k), ThisEpoch)
      ensures approvalTrackers[k].approvedNextEpoch
           == Sum(approvalTrackers[k].accountStakes, Voters(State().Votes(), k), NextEpoch)
    {
      State().TrackersRecompute(k);
    }

    /** When one tracker changes, only its entry changes. */
    twostate lemma OneTrackerChanged(k: ApprovalInner)
      requires old(Separate()) && k in approvalTrackers
      requires approvalTrackers == old(approvalTrackers) && lastApprovalPerAccount == old(lastApprovalPerAccount)
      requires forall t :: t in approvalTrackers.Values && t != approvalTrackers[k] ==> unchanged(t)
      ensures State() == old(State()).(trackers := old(State()).trackers[k := approvalTrackers[k].State()])
      ensures approvalTrackers[k].Valid() ==> forall j :: j in approvalTrackers ==> approvalTrackers[j].Valid()
    {
      hide HeightState.WellFormed, Tracker.Valid;
      forall j | j in approvalTrackers && j != k
        ensures unchanged(approvalTrackers[j])
      {
        assert approvalTrackers[j] in approvalTrackers.Values;
      }
    }

    method Withdraw(v: Address)
      requires Valid()
      modifies this`approvalTrackers, approvalTrackers.Values
      ensures Valid() && State() == old(State()).Withdrawn(v)
      ensures approvalTrackers.Values <= old(approvalTrackers.Values)
    {
      hide HeightState.WellFormed, Tracker.Valid;
      old(State()).WithdrawnVotes(v);
      if v in lastApprovalPerAccount && lastApprovalPerAccount[v] in approvalTrackers {
        var parent := lastApprovalPerAccount[v];
        var t := approvalTrackers[parent];
        t.WithdrawApproval(v);
        OneTrackerChanged(parent);
        if t.witnesses == map[] {
          approvalTrackers := approvalTrackers - {parent};
        }
        assert State() == old(State()).Withdrawn(v);
      }
    }

    /** The tracker of an approval, made when there is none. */
    method TrackerFor(inner: ApprovalInner, stakes: StakeMap, mode: ThresholdMode) returns (t: Tracker)
      requires Separate() && StakesFit(stakes)
      modifies this`approvalTrackers
      ensures Separate() && inner in approvalTrackers && approvalTrackers[inner] == t
      ensures fresh(approvalTrackers.Values - old(approvalTrackers.Values))
      ensures inner in old(approvalTrackers) ==> approvalTrackers == old(approvalTrackers)
      ensures State() == old(State()).Opened(inner, stakes, mode)
    {
      hide Tracker.Valid;
      if inner !in approvalTrackers {
        t := new Tracker(stakes, mode);
        approvalTrackers := approvalTrackers[inner := t];
      }
      t := approvalTrackers[inner];
    }

    method Count(now: Instant, approval: ApprovalValidated) returns (r: Readiness)
      requires Separate() && approval.content.inner in approvalTrackers
      modifies approvalTrackers.Values
      ensures Separate()
      ensures State() == old(State()).Tallied(now, approval)
      ensures r == State().trackers[approval.content.inner].Readiness()
    {
      hide Tracker.Valid, TrackerState.Checked, TrackerState.With;
      var inner := approval.content.inner;
      r := approvalTrackers[inner].ProcessApproval(now, approval);
      OneTrackerChanged(inner);
    }

    method Accept(now: Instant, approval: ApprovalValidated, stakes: StakeMap, mode: ThresholdMode)
      returns (r: Readiness)
      requires Separate() && StakesFit(stakes)
      modifies this, approvalTrackers.Values
      ensures Separate() && fresh(approvalTrackers.Values - old(approvalTrackers.Values))
      ensures State() == old(State()).Accepted(now, approval, stakes, mode)
      ensures r == State().trackers[approval.content.inner].Readiness()
    {
      hide Separate, HeightState.Opened, HeightState.Tallied;
      lastApprovalPerAccount := lastApprovalPerAccount[approval.validator := approval.content.inner];
      assert State() == old(State()).Noted(approval.validator, approval.content.inner);
      var t := TrackerFor(approval.content.inner, stakes, mode);
      r := Count(now, approval);
    }

    method ProcessApproval(now: Instant, approval: ApprovalValidated, stakes: seq<ApprovalStake>, mode: ThresholdMode)
      returns (r: Readiness)
      requires Valid() && StakeListOk(stakes)
      modifies this, approvalTrackers.Values
      ensures Valid() && fresh(approvalTrackers.Values - old(approvalTrackers.Values))
      ensures State() == old(State()).Processed(now, approval, StakesOf(stakes), mode)
      ensures r == if approval.validator in StakesOf(stakes)
                   then State().trackers[approval.content.inner].Readiness() else NotReady
    {
      hide HeightState.WellFormed, Tracker.Valid, HeightState.Withdrawn;
      old(State()).ProcessedVotes(now, approval, StakesOf(stakes), mode);
      Withdraw(approval.validator);
      if approval.validator !in StakesOf(stakes) {
        return NotReady;
      }
      r := Accept(now, approval, StakesOf(stakes), mode);
    }
  }
}
