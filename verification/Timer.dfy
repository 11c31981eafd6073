/** The Doomslug timer: when to endorse, when to skip, over whole runs. */
module Timer {
  import opened Basics
  import opened Approvals
  import opened Naturals

  const MAX_TIMER_ITERS: nat := 20
  const U32_MAX: nat := 0xFFFF_FFFF

  datatype Config = Config(endorsementDelay: nat, minDelay: nat, delayStep: nat, maxDelay: nat)

  /** The time to wait `n` heights after the last final block. */
  function GetDelay(c: Config, n: nat): nat {
    Min(c.maxDelay, c.minDelay + c.delayStep * SaturatingSub(Min(n, U32_MAX), 2))
  }

  datatype State = State(
    config: Config,
    started: Instant,
    lastEndorsementSent: Instant,
    timerHeight: Height,
    tipHash: CryptoHash,
    tipHeight: Height,
    endorsementPending: bool,
    largestSent: Height,
    largestFinal: Height)

  function SkipDelay(s: State): nat {
    GetDelay(s.config, SaturatingSub(s.timerHeight, s.largestFinal))
  }

  predicate EndorsementDue(s: State, cur: Instant) {
    s.endorsementPending && cur >= s.lastEndorsementSent + s.config.endorsementDelay
  }

  predicate SkipDue(s: State, cur: Instant) {
    cur >= s.started + SkipDelay(s)
  }

  function CreateApproval(s: State, target: Height): ApprovalContent {
    NewContent(s.tipHash, s.tipHeight, target)
  }

  function EndorsementSent(s: State, cur: Instant): seq<ApprovalContent> {
    if EndorsementDue(s, cur) && s.tipHeight >= s.largestSent then [CreateApproval(s, s.tipHeight + 1)] else []
  }

  function AfterEndorsement(s: State, cur: Instant): State {
    if !EndorsementDue(s, cur) then s else
    s.(lastEndorsementSent := cur, endorsementPending := false,
       largestSent := if s.tipHeight >= s.largestSent then s.tipHeight + 1 else s.largestSent)
  }

  function AfterSkip(s: State): State {
    s.(started := s.started + SkipDelay(s), timerHeight := s.timerHeight + 1,
       largestSent := Max(s.timerHeight + 1, s.largestSent))
  }

  /** `assertionsHold` is whether a debug build gets past its assertions. */
  datatype Outcome = Outcome(state: State, sent: seq<ApprovalContent>, assertionsHold: bool)

  /** At most `n` turns of the loop of `process_timer`. */
  function Loop(s: State, cur: Instant, n: nat): Outcome
    decreases n
  {
    if n == 0 then Outcome(s, [], true) else
    var delaysApart := SkipDelay(s) >= 2 * s.config.endorsementDelay;
    var s1 := AfterEndorsement(s, cur);
    if !SkipDue(s1, cur) then Outcome(s1, EndorsementSent(s, cur), delaysApart) else
    var rest := Loop(AfterSkip(s1), cur, n - 1);
    Outcome(
      rest.state,
      EndorsementSent(s, cur) + [CreateApproval(s1, s1.timerHeight + 1)] + rest.sent,
      delaysApart && !s1.endorsementPending && rest.assertionsHold)
  }

  function ProcessTimer(s: State, cur: Instant): Outcome {
    Loop(s, cur, MAX_TIMER_ITERS)
  }

  /** Total waiting time of `k` heights from `height` on. */
  function SumDelays(s: State, height: Height, k: nat): nat
    decreases k
  {
    if k == 0 then 0 else
    GetDelay(s.config, SaturatingSub(height, s.largestFinal)) + SumDelays(s, height + 1, k - 1)
  }

  /** The skip messages for `k` successive targets, the first being `target`. */
  function SkipsFrom(s: State, target: Height, k: nat): (r: seq<ApprovalContent>)
    ensures |r| == k
    ensures forall i :: 0 <= i < k ==> r[i] == CreateApproval(s, target + i)
  {
    seq(k, i requires 0 <= i < k => CreateApproval(s, target + i))
  }

  ghost predicate SameTip(s: State, t: State) {
    s.tipHash == t.tipHash && s.tipHeight == t.tipHeight && s.config == t.config && s.largestFinal == t.largestFinal
  }

  /** Delays and messages depend on the tip, the configuration and the final height only. */
  lemma {:induction false} SumDelaysSameTip(s: State, t: State, height: Height, k: nat)
    requires SameTip(s, t)
    ensures SumDelays(s, height, k) == SumDelays(t, height, k)
    ensures SkipsFrom(s, height, k) == SkipsFrom(t, height, k)
    decreases k
  {
    if k > 0 {
      SumDelaysSameTip(s, t, height + 1, k - 1);
    }
  }

  /** What `k` skips after the endorsement step leave behind. */
  ghost predicate Skipped(s: State, s': State, cur: Instant, k: nat) {
    var s1 := AfterEndorsement(s, cur);
    s' == s1.(
      started := s.started + SumDelays(s, s.timerHeight, k),
      timerHeight := s.timerHeight + k,
      largestSent := if k == 0 then s1.largestSent else Max(s.timerHeight + k, s1.largestSent))
  }

  /** After a skip the endorsement step has nothing left to do. */
  lemma EndorsementOnce(s: State, cur: Instant)
    ensures
      var s2 := AfterSkip(AfterEndorsement(s, cur));
      AfterEndorsement(s2, cur) == s2 && EndorsementSent(s2, cur) == []
  {
  }

  lemma SkippedStep(s: State, s': State, cur: Instant, k: nat)
    requires Skipped(AfterSkip(AfterEndorsement(s, cur)), s', cur, k)
    ensures Skipped(s, s', cur, k + 1)
  {
    var s2 := AfterSkip(AfterEndorsement(s, cur));
    EndorsementOnce(s, cur);
    SumDelaysSameTip(s, s2, s2.timerHeight, k);
  }

  lemma SkipsStep(s: State, cur: Instant, k: nat)
    ensures
      var s1 := AfterEndorsement(s, cur);
      SkipsFrom(s, s.timerHeight + 1, k + 1)
        == [CreateApproval(s1, s1.timerHeight + 1)] + SkipsFrom(AfterSkip(s1), AfterSkip(s1).timerHeight + 1, k)
  {
  }

  lemma LoopTurn(s: State, cur: Instant, n: nat)
    requires n > 0
    ensures
      var (s1, r) := (AfterEndorsement(s, cur), Loop(s, cur, n));
      var delaysApart := SkipDelay(s) >= 2 * s.config.endorsementDelay;
      if !SkipDue(s1, cur) then r == Outcome(s1, EndorsementSent(s, cur), delaysApart)
      else
        var rest := Loop(AfterSkip(s1), cur, n - 1);
        && r.state == rest.state
        && r.sent == EndorsementSent(s, cur) + [CreateApproval(s1, s1.timerHeight + 1)] + rest.sent
        && r.assertionsHold == (delaysApart && !s1.endorsementPending && rest.assertionsHold)
  {
  }

  /** What is sent and found so far, ahead of an outcome. */
  ghost function Ahead(sent: seq<ApprovalContent>, ok: bool, o: Outcome): Outcome {
    Outcome(o.state, sent + o.sent, ok && o.assertionsHold)
  }

  /** One turn of the loop, with what came before it. */
  lemma AheadTurn(s: State, cur: Instant, n: nat, sent: seq<ApprovalContent>, ok: bool)
    requires n > 0
    ensures
      var (s1, delaysApart) := (AfterEndorsement(s, cur), SkipDelay(s) >= 2 * s.config.endorsementDelay);
      Ahead(sent, ok, Loop(s, cur, n)) ==
        if !SkipDue(s1, cur) then Outcome(s1, sent + EndorsementSent(s, cur), ok && delaysApart)
        else Ahead(
          sent + (EndorsementSent(s, cur) + [CreateApproval(s1, s1.timerHeight + 1)]),
          ok && (delaysApart && !s1.endorsementPending), Loop(AfterSkip(s1), cur, n - 1))
  {
    LoopTurn(s, cur, n);
    hide Loop, AfterEndorsement, AfterSkip, EndorsementSent, CreateApproval, SkipDue, SkipDelay;
  }

  lemma NoSkips(s: State, cur: Instant)
    ensures Skipped(s, AfterEndorsement(s, cur), cur, 0)
    ensures Loop(s, cur, 0) == Outcome(s, [], true)
    ensures SkipsFrom(s, s.timerHeight + 1, 0) == []
  {
  }

  lemma AheadOfLoop(s: State, cur: Instant, sent: seq<ApprovalContent>, ok: bool)
    ensures Ahead([], true, ProcessTimer(s, cur)) == ProcessTimer(s, cur) == Loop(s, cur, MAX_TIMER_ITERS)
    ensures Ahead(sent, ok, Loop(s, cur, 0)) == Outcome(s, sent, ok)
  {
    NoSkips(s, cur);
    hide Loop;
    var o := ProcessTimer(s, cur);
    assert [] + o.sent == o.sent;
  }

  /** Timer accounting: one optional endorsement comes first, then skips for successive
      targets; the timer advances by the delays of exactly the heights stepped; and the
      loop ends caught up, or has used all its turns for skips. */
  lemma {:induction false} LoopShape(s: State, cur: Instant, n: nat) returns (k: nat)
    requires n > 0
    ensures k <= n && Skipped(s, Loop(s, cur, n).state, cur, k)
    ensures Loop(s, cur, n).sent == EndorsementSent(s, cur) + SkipsFrom(s, s.timerHeight + 1, k)
    ensures k == n || !SkipDue(Loop(s, cur, n).state, cur)
    ensures k > 0 <==> SkipDue(AfterEndorsement(s, cur), cur)
    decreases n
  {
    hide SkipsFrom, Skipped, AfterSkip, AfterEndorsement, EndorsementSent, SkipDue, Loop, CreateApproval;
    var s1 := AfterEndorsement(s, cur);
    LoopTurn(s, cur, n);
    NoSkips(s, cur);
    if !SkipDue(s1, cur) {
      k := 0;
    } else {
      var s2 := AfterSkip(s1);
      EndorsementOnce(s, cur);
      NoSkips(s2, cur);
      var more := 0;
      if n > 1 {
        more := LoopShape(s2, cur, n - 1);
      }
      SkippedStep(s, Loop(s, cur, n).state, cur, more);
      SkipsStep(s, cur, more);
      k := more + 1;
    }
  }

  /** The delay is at least `x` at every height just when both its bounds are. */
  lemma DelayAtLeast(c: Config, x: nat)
    ensures (forall n: nat :: GetDelay(c, n) >= x) <==> c.minDelay >= x && c.maxDelay >= x
  {
    assert GetDelay(c, 0) == Min(c.maxDelay, c.minDelay);
    forall n: nat | c.minDelay >= x && c.maxDelay >= x ensures GetDelay(c, n) >= x {
      assert c.delayStep * SaturatingSub(Min(n, U32_MAX), 2) >= 0;
    }
  }

  ghost predicate DelaysApart(c: Config) {
    c.minDelay >= 2 * c.endorsementDelay && c.maxDelay >= 2 * c.endorsementDelay
  }

  /** A pending endorsement was last delayed from no later than the timer's start. */
  ghost predicate InStep(s: State, clock: Instant) {
    s.lastEndorsementSent <= clock && (s.endorsementPending ==> s.lastEndorsementSent <= s.started)
  }

  /** Neither debug assertion of `process_timer` can fail. */
  lemma {:induction false} AssertionsHold(s: State, clock: Instant, cur: Instant, n: nat)
    requires DelaysApart(s.config) && InStep(s, clock) && clock <= cur
    ensures Loop(s, cur, n).assertionsHold && InStep(Loop(s, cur, n).state, cur)
    ensures Loop(s, cur, n).state.config == s.config
    decreases n
  {
    if n > 0 {
      DelayAtLeast(s.config, 2 * s.config.endorsementDelay);
      var s1 := AfterEndorsement(s, cur);
      if SkipDue(s1, cur) {
        assert SkipDelay(s1) == SkipDelay(s) >= 2 * s.config.endorsementDelay;
        AssertionsHold(AfterSkip(s1), cur, cur, n - 1);
      }
    }
  }

  datatype Event =
    | OnBlock(now: Instant, hash: CryptoHash, height: Height, lastFinal: Height)
    | Tick(now: Instant)

  function New(largestSent: Height, config: Config, started: Instant, lastEndorsementSent: Instant): State {
    State(config, started, lastEndorsementSent, 0, DEFAULT_HASH, 0, false, largestSent, 0)
  }

  function NewTip(s: State, now: Instant, hash: CryptoHash, height: Height, lastFinal: Height): State {
    s.(tipHash := hash, tipHeight := height, largestFinal := lastFinal,
       timerHeight := height + 1, started := now, endorsementPending := true)
  }

  function Handle(s: State, e: Event): Outcome {
    match e
    case OnBlock(now, hash, height, lastFinal) =>
      Outcome(NewTip(s, now, hash, height, lastFinal), [], height > s.tipHeight || s.tipHeight == 0)
    case Tick(now) => ProcessTimer(s, now)
  }

  /** A whole run, with everything sent in order. */
  function Run(s: State, events: seq<Event>): Outcome {
    if events == [] then Outcome(s, [], true) else
    var before := Run(s, events[..|events| - 1]);
    var last := Handle(before.state, events[|events| - 1]);
    Outcome(last.state, before.sent + last.sent, before.assertionsHold && last.assertionsHold)
  }

  /** The timer stands above the tip, as it does from the first `on_block` on. */
  predicate Started(s: State) {
    s.timerHeight > s.tipHeight
  }

  predicate Fresh(s: State) {
    s.timerHeight == s.tipHeight == 0 && !s.endorsementPending
  }

  /** Messages that a batch may add when everything sent before is at most `floor`:
      strictly rising targets, and endorsements above `floor`. */
  ghost predicate Rising(sent: seq<ApprovalContent>, floor: Height) {
    && (forall i, j :: 0 <= i < j < |sent| ==> sent[i].targetHeight < sent[j].targetHeight)
    && (forall j :: 0 <= j < |sent| && sent[j].inner.Endorsement? ==> sent[j].targetHeight > floor)
  }

  /** Each `process_timer` sends at most one endorsement, of the height after the tip, and
      only above everything sent before; all else it sends are skips over the tip, with
      rising targets, and `largestSent` stays on top of all targets. */
  lemma BatchRises(s: State, cur: Instant)
    requires Started(s)
    ensures
      var r := ProcessTimer(s, cur);
      && Rising(r.sent, s.largestSent)
      && Started(r.state) && r.state.largestSent >= s.largestSent
      && (forall i :: 0 <= i < |r.sent| ==> r.sent[i].targetHeight <= r.state.largestSent)
      && (forall i :: 0 <= i < |r.sent| ==>
            r.sent[i].inner == if i == 0 && EndorsementSent(s, cur) != []
                               then Endorsement(s.tipHash) else Skip(s.tipHeight))
  {
    hide Loop;
    var k := LoopShape(s, cur, MAX_TIMER_ITERS);
    var sent := ProcessTimer(s, cur).sent;
    var e := |EndorsementSent(s, cur)|;
    assert forall i :: 0 <= i < |sent| ==>
      sent[i] == if i < e then CreateApproval(s, s.tipHeight + 1) else CreateApproval(s, s.timerHeight + 1 + (i - e));
  }

  /** Before the first block the timer sits at the tip, and its first timeout endorses the
      default hash at height 1. */
  lemma FreshBatch(s: State, cur: Instant)
    requires Fresh(s)
    ensures
      var r := ProcessTimer(s, cur);
      && (forall i, j :: 0 <= i < j < |r.sent| ==> r.sent[i].targetHeight < r.sent[j].targetHeight)
      && (forall i :: 0 <= i < |r.sent| ==> r.sent[i].targetHeight <= r.state.largestSent)
      && (forall i :: 0 <= i < |r.sent| ==>
            r.sent[i].inner == if i == 0 then Endorsement(s.tipHash) else Skip(s.tipHeight))
      && (if r.sent == [] then r.state == s else Started(r.state) && r.sent[0].targetHeight == 1)
      && r.state.largestSent >= s.largestSent
      && (r.sent == [] <==> cur < s.started + SkipDelay(s))
  {
    hide Loop;
    var k := LoopShape(s, cur, MAX_TIMER_ITERS);
    assert EndorsementSent(s, cur) == [];
    var sent := ProcessTimer(s, cur).sent;
    assert forall i :: 0 <= i < |sent| ==> sent[i] == CreateApproval(s, s.timerHeight + 1 + i);
  }

  /** No equivocation over a run from any state after a block: every endorsement targets a
      height strictly above the starting mark and above every target sent before it. */
  lemma {:induction false} EndorsementsRise(s: State, events: seq<Event>)
    requires Started(s)
    ensures
      var r := Run(s, events);
      && Started(r.state) && r.state.largestSent >= s.largestSent
      && (forall i :: 0 <= i < |r.sent| ==> r.sent[i].targetHeight <= r.state.largestSent)
      && (forall j :: 0 <= j < |r.sent| && r.sent[j].inner.Endorsement? ==> r.sent[j].targetHeight > s.largestSent)
      && (forall i, j :: 0 <= i < j < |r.sent| && r.sent[j].inner.Endorsement? ==>
            r.sent[i].targetHeight < r.sent[j].targetHeight)
  {
    if events != [] {
      var front, last := events[..|events| - 1], events[|events| - 1];
      EndorsementsRise(s, front);
      if last.Tick? {
        BatchRises(Run(s, front).state, last.now);
      }
    }
  }

  /** The same over a run from start-up, blocks or no blocks: so no instance ever endorses
      a target height twice. */
  lemma {:induction false} NoEquivocation(
      largestSent: Height, config: Config, t0: Instant, t1: Instant, events: seq<Event>)
    ensures
      var r := Run(New(largestSent, config, t0, t1), events);
      && (if r.sent == [] then Fresh(r.state) || Started(r.state) else Started(r.state))
      && (forall i :: 0 <= i < |r.sent| ==> r.sent[i].targetHeight <= r.state.largestSent)
      && (forall i, j :: 0 <= i < j < |r.sent| && r.sent[j].inner.Endorsement? ==>
            r.sent[i].targetHeight < r.sent[j].targetHeight)
  {
    if events != [] {
      var front, last := events[..|events| - 1], events[|events| - 1];
      NoEquivocation(largestSent, config, t0, t1, front);
      var before := Run(New(largestSent, config, t0, t1), front).state;
      if last.Tick? {
        if Started(before) {
          BatchRises(before, last.now);
        } else {
          FreshBatch(before, last.now);
        }
      }
    }
  }

  /** A height endorsed at two places of a run is endorsed at one place. */
  lemma EndorsedOnce(
      largestSent: Height, config: Config, t0: Instant, t1: Instant, events: seq<Event>, i: nat, j: nat)
    requires
      var r := Run(New(largestSent, config, t0, t1), events);
      && i < |r.sent| && j < |r.sent|
      && r.sent[i].inner.Endorsement? && r.sent[j].inner.Endorsement?
      && r.sent[i].targetHeight == r.sent[j].targetHeight
    ensures i == j
  {
    NoEquivocation(largestSent, config, t0, t1, events);
  }

  predicate HasBlock(events: seq<Event>) {
    exists i | 0 <= i < |events| :: events[i].OnBlock?
  }

  /** The timer runs out before there is any block. */
  predicate TimesOutEarly(config: Config, started: Instant, events: seq<Event>) {
    exists i | 0 <= i < |events| ::
      && events[i].Tick? && events[i].now >= started + GetDelay(config, 0)
      && !HasBlock(events[..i])
  }

  lemma OneEventMore(config: Config, started: Instant, events: seq<Event>)
    requires events != []
    ensures var front, last := events[..|events| - 1], events[|events| - 1];
      && (HasBlock(events) <==> HasBlock(front) || last.OnBlock?)
      && (TimesOutEarly(config, started, events) <==>
            || TimesOutEarly(config, started, front)
            || (last.Tick? && last.now >= started + GetDelay(config, 0) && !HasBlock(front)))
  {
    var front := events[..|events| - 1];
    assert forall i :: 0 <= i < |front| ==> front[i] == events[i] && front[..i] == events[..i];
    if TimesOutEarly(config, started, front) {
      var i :| 0 <= i < |front| && front[i].Tick? && front[i].now >= started + GetDelay(config, 0) && !HasBlock(front[..i]);
      assert events[i].Tick? && !HasBlock(events[..i]);
    }
    if HasBlock(front) {
      var i :| 0 <= i < |front| && front[i].OnBlock?;
      assert events[i].OnBlock?;
    }
  }

  /** All endorsements target heights above a mark. */
  ghost predicate EndorsedAbove(sent: seq<ApprovalContent>, mark: Height) {
    forall i :: 0 <= i < |sent| && sent[i].inner.Endorsement? ==> sent[i].targetHeight > mark
  }

  const FIRST_TIMEOUT := ApprovalContent(Endorsement(DEFAULT_HASH), 1)

  /** How a run from start-up goes: it waits, until either the first block comes, and all
      endorsements lie above the mark carried over, or the timer runs out first. */
  lemma {:induction false} StartUp(mark: Height, config: Config, t0: Instant, t1: Instant, events: seq<Event>)
    ensures
      var r := Run(New(mark, config, t0, t1), events);
      && r.state.largestSent >= mark
      && (if TimesOutEarly(config, t0, events) then
            Started(r.state) && r.sent != [] && r.sent[0] == FIRST_TIMEOUT && EndorsedAbove(r.sent, 0)
          else if HasBlock(events) then Started(r.state) && EndorsedAbove(r.sent, mark)
          else r.state == New(mark, config, t0, t1) && r.sent == [])
  {
    if events != [] {
      var front, last := events[..|events| - 1], events[|events| - 1];
      OneEventMore(config, t0, events);
      StartUp(mark, config, t0, t1, front);
      var before := Run(New(mark, config, t0, t1), front).state;
      hide ProcessTimer, TimesOutEarly, HasBlock, GetDelay;
      if last.Tick? {
        if Started(before) {
          BatchRises(before, last.now);
        } else {
          FreshBatch(before, last.now);
        }
      }
    }
  }

  /** A timeout before any block endorses height 1 under the default hash, first of all and
      whatever the mark. */
  lemma TimeoutBeforeFirstBlock(mark: Height, config: Config, t0: Instant, t1: Instant, events: seq<Event>)
    requires TimesOutEarly(config, t0, events)
    ensures
      var sent := Run(New(mark, config, t0, t1), events).sent;
      && sent != [] && sent[0] == FIRST_TIMEOUT && (sent[0].targetHeight > mark <==> mark == 0)
  {
    StartUp(mark, config, t0, t1, events);
  }

  /** Exactly when a new instance keeps its endorsements above the mark carried over from an
      earlier one: there is no mark, or no timeout comes before the first block. */
  lemma EndorsementsAboveTheMark(mark: Height, config: Config, t0: Instant, t1: Instant, events: seq<Event>)
    ensures EndorsedAbove(Run(New(mark, config, t0, t1), events).sent, mark) <==>
      mark == 0 || !TimesOutEarly(config, t0, events)
  {
    StartUp(mark, config, t0, t1, events);
    hide Run, TimesOutEarly;
  }

  predicate Clocked(events: seq<Event>, from: Instant) {
    && (forall i :: 0 <= i < |events| ==> from <= events[i].now)
    && (forall i, j :: 0 <= i < j < |events| ==> events[i].now <= events[j].now)
  }

  /** The height of the last block, 0 before the first. */
  function TipAfter(events: seq<Event>): Height {
    if events == [] then 0 else
    var last := events[|events| - 1];
    if last.OnBlock? then last.height else TipAfter(events[..|events| - 1])
  }

  /** Each block is higher than the one before it, if that is not at height 0. */
  predicate TipsRise(events: seq<Event>) {
    events == [] || (
      var front, last := events[..|events| - 1], events[|events| - 1];
      TipsRise(front) && (last.OnBlock? ==> last.height > TipAfter(front) || TipAfter(front) == 0))
  }

  /** On a clock that never goes back, a run of a node whose delays are apart fails no debug
      assertion exactly when its blocks rise: those of `process_timer` never fail. */
  lemma {:induction false} RunsKeepAssertions(
      largestSent: Height, config: Config, t0: Instant, t1: Instant, events: seq<Event>)
    requires DelaysApart(config) && Clocked(events, t1)
    ensures
      var r := Run(New(largestSent, config, t0, t1), events);
      var clock := if events == [] then t1 else events[|events| - 1].now;
      && (r.assertionsHold <==> TipsRise(events))
      && r.state.config == config && InStep(r.state, clock) && r.state.tipHeight == TipAfter(events)
  {
    if events != [] {
      var front, last := events[..|events| - 1], events[|events| - 1];
      RunsKeepAssertions(largestSent, config, t0, t1, front);
      var clock := if front == [] then t1 else front[|front| - 1].now;
      var before := Run(New(largestSent, config, t0, t1), front).state;
      assert clock <= last.now;
      if last.Tick? {
        AssertionsHold(before, clock, last.now, MAX_TIMER_ITERS);
        var k := LoopShape(before, last.now, MAX_TIMER_ITERS);
        hide Loop;
      }
    }
  }

  /** The delays, in milliseconds, that the node configures. */
  const NODE_CONFIG := Config(600, 2_000_000, 200_000, 6_000)

  /** The node's delays are apart; its minimum lies above its maximum, so that the delay is the
      maximum at every height. */
  lemma NodeDelaysAreApart()
    ensures DelaysApart(NODE_CONFIG)
    ensures forall n: nat :: GetDelay(NODE_CONFIG, n) == 6_000
  {
    forall n: nat ensures GetDelay(NODE_CONFIG, n) == 6_000 {
      assert 200_000 * SaturatingSub(Min(n, U32_MAX), 2) >= 0;
    }
  }

  /** Repeated calls at one instant. */
  ghost function Repeat(s: State, cur: Instant, calls: nat): State {
    if calls == 0 then s else ProcessTimer(Repeat(s, cur, calls - 1), cur).state
  }

  lemma {:induction false} SumDelaysGrows(s: State, height: Height, k: nat)
    requires s.config.minDelay > 0 && s.config.maxDelay > 0
    ensures SumDelays(s, height, k) >= k
    decreases k
  {
    if k > 0 {
      SumDelaysGrows(s, height + 1, k - 1);
      DelayAtLeast(s.config, 1);
    }
  }

  lemma {:induction false} RepeatProgress(s: State, cur: Instant, calls: nat)
    requires s.config.minDelay > 0 && s.config.maxDelay > 0
    ensures Repeat(s, cur, calls).config == s.config
    ensures !SkipDue(Repeat(s, cur, calls), cur) || Repeat(s, cur, calls).started >= s.started + MAX_TIMER_ITERS * calls
  {
    hide Loop;
    if calls > 0 {
      RepeatProgress(s, cur, calls - 1);
      var before := Repeat(s, cur, calls - 1);
      var k := LoopShape(before, cur, MAX_TIMER_ITERS);
      SumDelaysGrows(before, before.timerHeight, k);
    }
  }

  /** With positive delays the timer catches up: after enough calls no skip is due. */
  lemma RepeatedCallsCatchUp(s: State, cur: Instant, calls: nat)
    requires s.config.minDelay > 0 && s.config.maxDelay > 0
    requires s.started + MAX_TIMER_ITERS * calls > cur
    ensures !SkipDue(Repeat(s, cur, calls), cur)
  {
    RepeatProgress(s, cur, calls);
  }
}
