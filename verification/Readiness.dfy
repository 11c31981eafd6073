/** The threshold rule on a block's approval slots, and how the running rule refines it. */
module ReadinessRules {
  import opened Approvals
  import opened Maps
  import opened Stakes
  import opened Trackers

  /** One slot of the validator list: both stakes and whether the validator is slashed. */
  datatype Slot = Slot(stake: Stake, slashed: bool)

  function SlotWeight(s: Slot, e: Epoch): nat {
    if e.ThisEpoch? then s.stake.thisEpoch else s.stake.nextEpoch
  }

  function TotalOf(slots: seq<Slot>, e: Epoch): nat {
    if slots == [] then 0 else TotalOf(slots[..|slots| - 1], e) + SlotWeight(slots[|slots| - 1], e)
  }

  /** The stake of the unslashed slots that carry an approval; slots beyond the shorter list
      do not count. */
  function ApprovedOf(approvals: seq<bool>, slots: seq<Slot>, e: Epoch): nat {
    if slots == [] then 0 else
    var n := |slots| - 1;
    ApprovedOf(approvals, slots[..n], e) +
      if n < |approvals| && approvals[n] && !slots[n].slashed then SlotWeight(slots[n], e) else 0
  }

  predicate CanApprovedBlockBeProduced(mode: ThresholdMode, approvals: seq<bool>, slots: seq<Slot>) {
    mode == NoApprovals ||
    var threshold1 := TotalOf(slots, ThisEpoch) * 2 / 3;
    var threshold2 := TotalOf(slots, NextEpoch) * 2 / 3;
    && (ApprovedOf(approvals, slots, ThisEpoch) > threshold1 || threshold1 == 0)
    && (ApprovedOf(approvals, slots, NextEpoch) > threshold2 || threshold2 == 0)
  }

  /** The slots that count, in order: those of unslashed validators that approve. */
  function Counting(approvals: seq<bool>, slots: seq<Slot>): seq<Slot> {
    if slots == [] || approvals == [] then [] else
    (if approvals[0] && !slots[0].slashed then [slots[0]] else []) + Counting(approvals[1..], slots[1..])
  }

  lemma TotalOfHead(x: Slot, slots: seq<Slot>, e: Epoch)
    ensures TotalOf([x] + slots, e) == SlotWeight(x, e) + TotalOf(slots, e)
    decreases |slots|
  {
    if slots != [] {
      var n := |slots| - 1;
      assert ([x] + slots)[..n + 1] == [x] + slots[..n];
      TotalOfHead(x, slots[..n], e);
    } else {
      assert [x] + slots == [x] && [x][..0] == [];
    }
  }

  lemma {:induction false} ApprovedOfHead(approvals: seq<bool>, slots: seq<Slot>, e: Epoch)
    requires slots != [] && approvals != []
    ensures ApprovedOf(approvals, slots, e)
         == (if approvals[0] && !slots[0].slashed then SlotWeight(slots[0], e) else 0)
            + ApprovedOf(approvals[1..], slots[1..], e)
    decreases |slots|
  {
    var n := |slots| - 1;
    if n > 0 {
      ApprovedOfHead(approvals, slots[..n], e);
      assert slots[..n][1..] == slots[1..][..n - 1];
    } else {
      assert slots[..0] == [];
    }
  }

  lemma {:induction false} NoApprovalsCountNothing(slots: seq<Slot>, e: Epoch)
    ensures ApprovedOf([], slots, e) == 0
  {
    if slots != [] {
      NoApprovalsCountNothing(slots[..|slots| - 1], e);
    }
  }

  /** The approved stake is that of the slots that count, slashed ones left out; the total is that of
      all slots, slashed or not. */
  lemma {:induction false} ApprovedIsTotalOfCounting(approvals: seq<bool>, slots: seq<Slot>, e: Epoch)
    ensures ApprovedOf(approvals, slots, e) == TotalOf(Counting(approvals, slots), e)
    decreases |slots|
  {
    if slots == [] {
    } else if approvals == [] {
      NoApprovalsCountNothing(slots, e);
    } else {
      ApprovedOfHead(approvals, slots, e);
      ApprovedIsTotalOfCounting(approvals[1..], slots[1..], e);
      var rest := Counting(approvals[1..], slots[1..]);
      TotalOfHead(slots[0], rest, e);
      assert [] + rest == rest;
    }
  }

  function SlotsOf(stakes: seq<ApprovalStake>): (slots: seq<Slot>)
    ensures |slots| == |stakes|
    ensures forall i :: 0 <= i < |stakes| ==> slots[i] == Slot(stakes[i].stake, stakes[i].slashed)
  {
    seq(|stakes|, i requires 0 <= i < |stakes| => Slot(stakes[i].stake, stakes[i].slashed))
  }

  /** Slot `i` carries an approval exactly when its validator is among `witnesses`. */
  ghost predicate Match(approvals: seq<bool>, stakes: seq<ApprovalStake>, witnesses: set<Address>) {
    forall i :: 0 <= i < |stakes| ==> (i < |approvals| && approvals[i] <==> stakes[i].validator in witnesses)
  }

  lemma {:induction false} StakeMapSize(stakes: seq<ApprovalStake>)
    ensures |StakesOf(stakes)| <= |stakes|
  {
    if stakes != [] {
      var front, last := stakes[..|stakes| - 1], stakes[|stakes| - 1];
      StakeMapSize(front);
      PutSize(StakesOf(front), last.validator, last.stake);
    }
  }

  /** A list as long as its map repeats no validator and holds no slashed one. */
  lemma FullSizeSplits(stakes: seq<ApprovalStake>)
    requires stakes != [] && |StakesOf(stakes)| == |stakes|
    ensures
      var front, last := stakes[..|stakes| - 1], stakes[|stakes| - 1];
      && |StakesOf(front)| == |front|
      && !last.slashed && last.validator !in StakesOf(front)
      && StakesOf(stakes) == StakesOf(front)[last.validator := last.stake]
  {
    var front, last := stakes[..|stakes| - 1], stakes[|stakes| - 1];
    StakeMapSize(front);
    PutSize(StakesOf(front), last.validator, last.stake);
  }

  /** The entry that counts for an account: its last unslashed one. */
  ghost predicate Counts(stakes: seq<ApprovalStake>, i: int) {
    && 0 <= i < |stakes| && !stakes[i].slashed
    && forall j :: i < j < |stakes| && stakes[j].validator == stakes[i].validator ==> stakes[j].slashed
  }

  /** The stake map, entry by entry. */
  lemma {:induction false} StakesOfExactly(stakes: seq<ApprovalStake>, v: Address)
    ensures v in StakesOf(stakes) <==> exists i :: Counts(stakes, i) && stakes[i].validator == v
    ensures forall i :: Counts(stakes, i) && stakes[i].validator == v ==>
      v in StakesOf(stakes) && StakesOf(stakes)[v] == stakes[i].stake
  {
    if stakes != [] {
      var n := |stakes| - 1;
      var front, last := stakes[..n], stakes[n];
      StakesOfExactly(front, v);
      forall i | 0 <= i < n && stakes[i].validator == v
        ensures Counts(stakes, i) <==> Counts(front, i) && (last.slashed || last.validator != v)
      {
        assert front[i] == stakes[i];
        assert forall j :: i < j < n ==> front[j] == stakes[j];
      }
      assert Counts(stakes, n) <==> !last.slashed;
      if v in StakesOf(front) {
        var i :| Counts(front, i) && front[i].validator == v;
        assert Counts(stakes, i) || Counts(stakes, n);
      }
    }
  }

  /** The source asserts that the map is as long as the list: exactly when no entry is slashed and no
      account has two. */
  lemma {:induction false} FullSizeExactly(stakes: seq<ApprovalStake>)
    ensures |StakesOf(stakes)| == |stakes| <==>
      && (forall i :: 0 <= i < |stakes| ==> !stakes[i].slashed)
      && (forall i, j :: 0 <= i < j < |stakes| ==> stakes[i].validator != stakes[j].validator)
  {
    if stakes != [] {
      var n := |stakes| - 1;
      var front, last := stakes[..n], stakes[n];
      FullSizeExactly(front);
      StakeMapSize(front);
      PutSize(StakesOf(front), last.validator, last.stake);
      StakesOfExactly(front, last.validator);
      assert forall i :: 0 <= i < n ==> front[i] == stakes[i];
      if |StakesOf(front)| == n {
        forall i | 0 <= i < n ensures Counts(front, i) {
        }
      }
    }
  }

  /** Adding an account with stake to the map leaves sums over the other accounts alone. */
  lemma {:induction false} SumIgnoresOthers(stakes: StakeMap, v: Address, x: Stake, s: set<Address>, e: Epoch)
    requires v !in s
    ensures Sum(stakes[v := x], s, e) == Sum(stakes, s, e)
    decreases s
  {
    if s != {} {
      var a :| a in s;
      SumRemove(stakes, s, a, e);
      SumRemove(stakes[v := x], s, a, e);
      SumIgnoresOthers(stakes, v, x, s - {a}, e);
    }
  }

  /** The slot sums are the map sums. */
  lemma {:induction false} SlotSums(approvals: seq<bool>, stakes: seq<ApprovalStake>, witnesses: set<Address>, e: Epoch)
    requires |StakesOf(stakes)| == |stakes| && Match(approvals, stakes, witnesses)
    ensures TotalOf(SlotsOf(stakes), e) == Total(StakesOf(stakes), e)
    ensures ApprovedOf(approvals, SlotsOf(stakes), e) == Sum(StakesOf(stakes), witnesses * StakesOf(stakes).Keys, e)
  {
    if stakes == [] {
      assert StakesOf([]).Keys == {} && witnesses * {} == {};
    } else {
      var front, last := stakes[..|stakes| - 1], stakes[|stakes| - 1];
      FullSizeSplits(stakes);
      SlotSums(approvals, front, witnesses, e);
      assert SlotsOf(stakes)[..|stakes| - 1] == SlotsOf(front);
      var m, f := StakesOf(stakes), StakesOf(front);
      var v := last.validator;
      assert m.Keys == f.Keys + {v};
      SumAdd(m, f.Keys, v, e);
      SumIgnoresOthers(f, v, last.stake, f.Keys, e);
      SumIgnoresOthers(f, v, last.stake, witnesses * f.Keys, e);
      if v in witnesses {
        assert witnesses * m.Keys == witnesses * f.Keys + {v};
        SumAdd(m, witnesses * f.Keys, v, e);
      } else {
        assert witnesses * m.Keys == witnesses * f.Keys;
      }
    }
  }

  lemma SumOverListed(stakes: StakeMap, witnesses: set<Address>, e: Epoch)
    ensures Sum(stakes, witnesses * stakes.Keys, e) == Sum(stakes, witnesses, e)
  {
    SumUnion(stakes, witnesses * stakes.Keys, witnesses - stakes.Keys, e);
    assert witnesses * stakes.Keys + (witnesses - stakes.Keys) == witnesses;
    assert (witnesses * stakes.Keys) * (witnesses - stakes.Keys) == {};
    SumOfStrangers(stakes, witnesses - stakes.Keys, e);
  }

  /** The running rule is the slot rule, less the cases where the slot rule waives a zero
      threshold: a total of at most 1 this epoch, or of exactly 1 next epoch, with nothing
      of it approving. In particular readiness implies the slot rule. */
  lemma RunningRuleRefinesSlotRule(approvals: seq<bool>, stakes: seq<ApprovalStake>, witnesses: set<Address>)
    requires |StakesOf(stakes)| == |stakes| && Match(approvals, stakes, witnesses)
    ensures
      var slots := SlotsOf(stakes);
      Passes(StakesOf(stakes), witnesses, TwoThirds) <==>
        && CanApprovedBlockBeProduced(TwoThirds, approvals, slots)
        && !(TotalOf(slots, ThisEpoch) <= 1 && ApprovedOf(approvals, slots, ThisEpoch) == 0)
        && !(TotalOf(slots, NextEpoch) == 1 && ApprovedOf(approvals, slots, NextEpoch) == 0)
  {
    SlotSums(approvals, stakes, witnesses, ThisEpoch);
    SlotSums(approvals, stakes, witnesses, NextEpoch);
    SumOverListed(StakesOf(stakes), witnesses, ThisEpoch);
    SumOverListed(StakesOf(stakes), witnesses, NextEpoch);
  }

  /** With at least 2 staked this epoch and not exactly 1 next epoch the rules are one. */
  lemma {:induction false} RulesAgreeOnRealStakes(
      mode: ThresholdMode, approvals: seq<bool>, stakes: seq<ApprovalStake>, witnesses: set<Address>)
    requires |StakesOf(stakes)| == |stakes| && Match(approvals, stakes, witnesses)
    requires Total(StakesOf(stakes), ThisEpoch) >= 2 && Total(StakesOf(stakes), NextEpoch) != 1
    ensures Passes(StakesOf(stakes), witnesses, mode) <==>
      CanApprovedBlockBeProduced(mode, approvals, SlotsOf(stakes))
  {
    RunningRuleRefinesSlotRule(approvals, stakes, witnesses);
    SlotSums(approvals, stakes, witnesses, ThisEpoch);
    SlotSums(approvals, stakes, witnesses, NextEpoch);
  }

  /** They differ at a single validator with stake 1 that does not approve. */
  lemma RulesDifferOnStakeOne(v: Address)
    ensures
      var stakes := [ApprovalStake(v, Stake(1, 0), false)];
      && CanApprovedBlockBeProduced(TwoThirds, [false], SlotsOf(stakes))
      && !Passes(StakesOf(stakes), {}, TwoThirds)
  {
  }
}
