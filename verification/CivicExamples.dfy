/**
 * Runs of the civic process with any five members: they confirm, propose, deliberate and vote. They reach the
 * states in which the lazy closing and the contestation window fall short.
 */
module CivicExamples {
  import opened Prelude
  import opened Timestamps
  import opened CivicProcess
  import opened CivicMandate
  import Laws = CivicLaws

  // ---- Five members -------------------------------------------------------

  ghost predicate Five(actors: seq<Actor>) {
    |actors| == THRESHOLD && Distinct(actors)
  }

  function FirstOf(actors: seq<Actor>, k: nat): set<Actor>
    requires k <= |actors|
  {
    if k == 0 then {} else FirstOf(actors, k - 1) + {actors[k - 1]}
  }

  lemma {:induction false} FirstOfSize(actors: seq<Actor>, k: nat)
    requires Distinct(actors) && k <= |actors|
    ensures |FirstOf(actors, k)| == k
    ensures forall i :: k <= i < |actors| ==> actors[i] !in FirstOf(actors, k)
  {
    if k > 0 { FirstOfSize(actors, k - 1); }
  }

  lemma {:induction false} FirstOfHas(actors: seq<Actor>, k: nat, i: nat)
    requires i < k <= |actors|
    ensures actors[i] in FirstOf(actors, k)
  {
    if i < k - 1 { FirstOfHas(actors, k - 1, i); }
  }

  /** Every member does the same thing, in order. */
  function Each(actors: seq<Actor>, act: Actor -> Action, k: nat): seq<Action>
    requires k <= |actors|
  {
    if k == 0 then [] else Each(actors, act, k - 1) + [act(actors[k - 1])]
  }

  lemma EachNext(actors: seq<Actor>, act: Actor -> Action, k: nat, p: Process)
    requires k < |actors|
    ensures Run(p, Each(actors, act, k + 1)) == Step(Run(p, Each(actors, act, k)), act(actors[k]))
  {
    var shorter := Each(actors, act, k);
    assert (shorter + [act(actors[k])])[..|shorter|] == shorter;
  }

  // ---- Up to the ballot ---------------------------------------------------

  /** Equal but for what a transition changes. */
  ghost predicate SameBut(p: Process, q: Process) {
    q == p.(stage := q.stage, log := q.log, events := q.events)
  }

  lemma ConfirmNext(p: Process, actor: Actor)
    requires Inv(p) && p.stage == Confirmation && actor !in p.confirmers
    ensures var q := Step(p, Confirm(actor)); Inv(q) && SameBut(p.(confirmers := p.confirmers + {actor}), q)
  {
    StepKeepsInv(p, Confirm(actor));
    var q := p.(confirmers := p.confirmers + {actor});
    AdvanceGrows(q, Transition(Confirmation, Proposals, ConfirmationThreshold, 1));
    hide Inv, Advance;
  }

  lemma ProposeNext(p: Process, actor: Actor)
    requires Inv(p) && p.stage == Proposals && actor !in p.proposals
    requires forall k <- p.proposals :: p.proposals[k].author == k
    ensures var q, proposals := Step(p, Propose(actor, actor)), p.proposals[actor := Proposal(actor, Published)];
      Inv(q) && SameBut(p.(proposals := proposals), q)
  {
    var proposals := p.proposals[actor := Proposal(actor, Published)];
    StepKeepsInv(p, Propose(actor, actor));
    AdvanceGrows(p.(proposals := proposals), Transition(Proposals, Deliberation, ProposalThreshold, 1));
    hide Inv, Advance;
  }

  /** The stage follows from how many there are. */
  lemma StageByCount(p: Process)
    requires Inv(p) && p.cycle == 1 && |p.contributors| < THRESHOLD
    ensures p.stage == if |p.confirmers| < THRESHOLD then Confirmation
                       else if |p.proposals| < THRESHOLD then Proposals else Deliberation
  {
    hide LogInv, BallotInv, SeatInv, VoteInv, OutcomeInv, VerificationInv;
  }

  ghost predicate ConfirmedBy(actors: seq<Actor>, k: nat, p: Process)
    requires k <= |actors|
  {
    Inv(p) && SameBut(NEW_PROCESS.(confirmers := FirstOf(actors, k)), p)
  }

  lemma NobodyConfirmed(actors: seq<Actor>)
    ensures ConfirmedBy(actors, 0, Run(NEW_PROCESS, Each(actors, a => Confirm(a), 0)))
  {
    NewProcessInv();
    hide Inv;
  }

  lemma ConfirmStep(actors: seq<Actor>, k: nat, p: Process)
    requires Five(actors) && k < THRESHOLD && ConfirmedBy(actors, k, p)
    ensures ConfirmedBy(actors, k + 1, Step(p, Confirm(actors[k])))
  {
    FirstOfSize(actors, k);
    hide Inv, Step, Distinct;
    StageByCount(p);
    ConfirmNext(p, actors[k]);
  }

  lemma {:induction false} AllConfirm(actors: seq<Actor>, k: nat)
    requires Five(actors) && k <= THRESHOLD
    ensures ConfirmedBy(actors, k, Run(NEW_PROCESS, Each(actors, a => Confirm(a), k)))
  {
    hide ConfirmedBy, Run, Step, Each, Distinct;
    if k == 0 {
      NobodyConfirmed(actors);
    } else {
      AllConfirm(actors, k - 1);
      EachNext(actors, a => Confirm(a), k - 1, NEW_PROCESS);
      ConfirmStep(actors, k - 1, Run(NEW_PROCESS, Each(actors, a => Confirm(a), k - 1)));
    }
  }

  function ProposalsOf(actors: seq<Actor>, k: nat): (r: map<ProposalId, Proposal>)
    requires k <= |actors|
    ensures r.Keys == FirstOf(actors, k) && forall a <- r :: r[a] == Proposal(a, Published)
  {
    if k == 0 then map[] else ProposalsOf(actors, k - 1)[actors[k - 1] := Proposal(actors[k - 1], Published)]
  }

  ghost function Confirmed5(actors: seq<Actor>): Process
    requires Five(actors)
  {
    Run(NEW_PROCESS, Each(actors, a => Confirm(a), THRESHOLD))
  }

  ghost predicate ProposedBy(actors: seq<Actor>, k: nat, p: Process)
    requires Five(actors) && k <= THRESHOLD
  {
    Inv(p) && SameBut(NEW_PROCESS.(confirmers := FirstOf(actors, THRESHOLD), proposals := ProposalsOf(actors, k)), p)
  }

  lemma RunNothing(p: Process)
    ensures Run(p, []) == p
  {
  }

  lemma NothingProposed(actors: seq<Actor>)
    requires Five(actors)
    ensures ProposedBy(actors, 0, Run(Confirmed5(actors), Each(actors, a => Propose(a, a), 0)))
  {
    AllConfirm(actors, THRESHOLD);
    hide Inv, FirstOf, Step;
    assert ProposalsOf(actors, 0) == map[];
    RunNothing(Confirmed5(actors));
    hide Run;
  }

  lemma ProposeStep(actors: seq<Actor>, k: nat, p: Process)
    requires Five(actors) && k < THRESHOLD && ProposedBy(actors, k, p)
    ensures ProposedBy(actors, k + 1, Step(p, Propose(actors[k], actors[k])))
  {
    FirstOfSize(actors, k);
    FirstOfSize(actors, THRESHOLD);
    hide Inv, Step, FirstOf, Distinct;
    assert |p.proposals.Keys| == |p.proposals|;
    StageByCount(p);
    ProposeNext(p, actors[k]);
  }

  lemma {:induction false} AllPropose(actors: seq<Actor>, k: nat)
    requires Five(actors) && k <= THRESHOLD
    ensures ProposedBy(actors, k, Run(Confirmed5(actors), Each(actors, a => Propose(a, a), k)))
  {
    hide ProposedBy, Confirmed5, Run, Step, Each, Distinct;
    if k == 0 {
      NothingProposed(actors);
    } else {
      AllPropose(actors, k - 1);
      EachNext(actors, a => Propose(a, a), k - 1, Confirmed5(actors));
      ProposeStep(actors, k - 1, Run(Confirmed5(actors), Each(actors, a => Propose(a, a), k - 1)));
    }
  }

  ghost function Proposed5(actors: seq<Actor>): Process
    requires Five(actors)
  {
    Run(Confirmed5(actors), Each(actors, a => Propose(a, a), THRESHOLD))
  }

  lemma ProposedShape(actors: seq<Actor>)
    requires Five(actors)
    ensures var p := Proposed5(actors);
      && Inv(p) && p.stage == Deliberation && p.cycle == 1 && p.proposals == ProposalsOf(actors, THRESHOLD)
      && p.contributors == {} && p.eligible == {} && p.consumed == {} && p.votes == []
  {
    AllPropose(actors, THRESHOLD);
    FirstOfSize(actors, THRESHOLD);
    var p := Proposed5(actors);
    assert |p.proposals.Keys| == |p.proposals|;
    StageByCount(p);
    hide *;
  }

  ghost predicate Deliberating(actors: seq<Actor>, k: nat, p: Process)
    requires Five(actors) && k <= THRESHOLD
  {
    && Inv(p) && p.stage == Deliberation && p.cycle == 1 && p.proposals == ProposalsOf(actors, THRESHOLD)
    && p.contributors == FirstOf(actors, k) && p.eligible == {} && p.consumed == {} && p.votes == []
  }

  ghost predicate BallotReady(actors: seq<Actor>, at: Micros, p: Process)
    requires Five(actors)
  {
    && Inv(p) && p.stage == BallotPreparation && p.cycle == 1
    && p.opensAt == Some(at + FREEZE_WINDOW) && p.closesAt == Some(at + FREEZE_WINDOW + VOTING_WINDOW)
    && (forall a <- FirstOf(actors, THRESHOLD) :: Seat(a, 1) in p.eligible)
    && actors[0] in p.proposals && p.proposals[actors[0]].state == Frozen
    && p.consumed == {} && p.votes == []
  }

  lemma ContributeStep(p: Process, actor: Actor, proposal: ProposalId, at: Micros, members: set<Actor>)
    requires Inv(p) && p.stage == Deliberation && proposal in p.proposals
    ensures var q, more := Step(p, Contribute(actor, proposal, at, members)), p.contributors + {actor};
      && Inv(q)
      && q == if |more| < THRESHOLD then p.(contributors := more)
              else Balloting(p.(contributors := more, stage := BallotPreparation, log := q.log, events := q.events),
                             at, members)
  {
    var q := p.(contributors := p.contributors + {actor});
    LogFrame(p, q);
    AdvanceForward(q, BallotPreparation);
    ContributeUnfolds(p, actor, proposal, at, members);
    hide Inv, LogInv, Step, Advance, Balloting;
    StepKeepsInv(p, Contribute(actor, proposal, at, members));
  }

  lemma ContributeUnfolds(p: Process, actor: Actor, proposal: ProposalId, at: Micros, members: set<Actor>)
    requires p.stage == Deliberation && proposal in p.proposals
    requires var q := p.(contributors := p.contributors + {actor});
      Advance(q, Transition(Deliberation, BallotPreparation, DeliberationThreshold, p.cycle)).Some?
    ensures var q := p.(contributors := p.contributors + {actor});
      var r := Advance(q, Transition(Deliberation, BallotPreparation, DeliberationThreshold, p.cycle));
      Step(p, Contribute(actor, proposal, at, members))
        == if |q.contributors| < THRESHOLD then q else Balloting(r.value, at, members)
  {
    hide Advance, Balloting;
  }

  lemma ContributeNext(actors: seq<Actor>, k: nat, p: Process, at: Micros)
    requires Five(actors) && k < THRESHOLD && Deliberating(actors, k, p)
    ensures var q := Step(p, Contribute(actors[k], actors[0], at, FirstOf(actors, THRESHOLD)));
      if k + 1 < THRESHOLD then Deliberating(actors, k + 1, q) else BallotReady(actors, at, q)
  {
    FirstOfSize(actors, k + 1);
    FirstOfHas(actors, THRESHOLD, 0);
    var members := FirstOf(actors, THRESHOLD);
    ContributeStep(p, actors[k], actors[0], at, members);
    assert p.contributors + {actors[k]} == FirstOf(actors, k + 1);
    var q := Step(p, Contribute(actors[k], actors[0], at, members));
    hide Inv, Step, FirstOf, Distinct;
    if k + 1 == THRESHOLD {
      VotersSeated(p.eligible, members);
      FrozenBallot(p.proposals, actors[0]);
      hide Freeze;
    }
  }

  lemma VotersSeated(eligible: set<Seat>, members: set<Actor>)
    ensures forall a <- members :: Seat(a, 1) in eligible + (set a | a in members :: Seat(a, 1))
  {
  }

  lemma FrozenBallot(proposals: map<ProposalId, Proposal>, id: ProposalId)
    requires id in proposals && proposals[id].state == Published
    ensures id in Freeze(proposals) && Freeze(proposals)[id].state == Frozen
  {
  }

  function Contributing(actors: seq<Actor>, at: Micros): Actor -> Action
    requires |actors| == THRESHOLD
  {
    var members := FirstOf(actors, THRESHOLD);
    a => Contribute(a, actors[0], at, members)
  }

  lemma {:induction false} AllContribute(actors: seq<Actor>, k: nat, at: Micros)
    requires Five(actors) && k <= THRESHOLD
    ensures var p := Run(Proposed5(actors), Each(actors, Contributing(actors, at), k));
      if k < THRESHOLD then Deliberating(actors, k, p) else BallotReady(actors, at, p)
  {
    if k == 0 {
      ProposedShape(actors);
    } else {
      AllContribute(actors, k - 1, at);
      EachNext(actors, Contributing(actors, at), k - 1, Proposed5(actors));
      var p := Run(Proposed5(actors), Each(actors, Contributing(actors, at), k - 1));
      hide Run, Step, Each, BallotReady, Deliberating, FirstOf;
      ContributeNext(actors, k - 1, p, at);
    }
  }

  /** What five members do up to the ballot, `at` the instant of the last contribution. */
  ghost function BallotScript(actors: seq<Actor>, at: Micros): seq<Action>
    requires Five(actors)
  {
    Each(actors, a => Confirm(a), THRESHOLD) + Each(actors, a => Propose(a, a), THRESHOLD)
    + Each(actors, Contributing(actors, at), THRESHOLD)
  }

  lemma BallotIsReached(actors: seq<Actor>, at: Micros)
    requires Five(actors)
    ensures BallotReady(actors, at, Run(NEW_PROCESS, BallotScript(actors, at)))
  {
    var one, two := Each(actors, a => Confirm(a), THRESHOLD), Each(actors, a => Propose(a, a), THRESHOLD);
    var three := Each(actors, Contributing(actors, at), THRESHOLD);
    AllContribute(actors, THRESHOLD, at);
    RunKeepsDecisions(one, two);
    RunKeepsDecisions(one + two, three);
    hide Run, Each, BallotReady;
  }

  /**
   * A run that nobody looks at for three days after the freeze: the first request, at the very end of the
   * window, still takes a vote.
   */
  lemma LateVoteHappens(actors: seq<Actor>, at: Micros)
    requires Five(actors)
    ensures var p, now := Run(NEW_PROCESS, BallotScript(actors, at)), (at + FREEZE_WINDOW + VOTING_WINDOW) / 1000;
      && p.stage == BallotPreparation && Elapsed(p.closesAt, now)
      && Visible(p, now).stage == Voting && Elapsed(Visible(p, now).closesAt, now)
      && Voted(Visible(p, now), actors[0], actors[0]).Ok?
  {
    var p, now := Run(NEW_PROCESS, BallotScript(actors, at)), (at + FREEZE_WINDOW + VOTING_WINDOW) / 1000;
    BallotIsReached(actors, at);
    FirstOfHas(actors, THRESHOLD, 0);
    hide Run, Inv, Visible, Voted;
    ElapsedBallotLeftOpen(p, now);
    LateVoteAccepted(p, now, actors[0], actors[0]);
  }

  /**
   * Until its opening instant nobody's read opens the ballot; from then on the first read does, and no read before
   * the closing instant, 72 hours later, closes it.
   */
  lemma BallotStaysOpen(actors: seq<Actor>, at: Micros, opening: Millis, later: Millis)
    requires Five(actors)
    ensures var p := Run(NEW_PROCESS, BallotScript(actors, at));
      && (opening < (at + 600_000_000) / 1000 ==> Visible(p, opening) == p)
      && ((at + 600_000_000) / 1000 <= opening ==> Visible(p, opening).stage == Voting)
      && ((at + 600_000_000) / 1000 <= opening && later < (at + 600_000_000 + 259_200_000_000) / 1000 ==>
            Visible(Visible(p, opening), later) == Visible(p, opening))
  {
    var p := Run(NEW_PROCESS, BallotScript(actors, at));
    BallotIsReached(actors, at);
    hide Run, Inv, Step;
    Laws.ReadExactly(p, opening);
    Laws.OpenExactly(p, opening);
    StepKeepsInv(p, OpenVoting(opening));
    Laws.ReadExactly(Visible(p, opening), later);
  }

  // ---- Up to the mandate --------------------------------------------------

  /** The ballot is open, and the first `k` members have voted. */
  ghost predicate Balloting5(actors: seq<Actor>, k: nat, closes: Micros, p: Process)
    requires Five(actors) && k <= THRESHOLD
  {
    && Inv(p) && p.stage == Voting && p.cycle == 1 && p.closesAt == Some(closes)
    && (forall a <- FirstOf(actors, THRESHOLD) :: Seat(a, 1) in p.eligible)
    && actors[0] in p.proposals && p.proposals[actors[0]].state == Frozen
    && (forall i :: k <= i < THRESHOLD ==> Seat(actors[i], 1) !in p.consumed)
    && |VotesIn(p.votes, 1)| == k
  }

  lemma OpenNext(actors: seq<Actor>, at: Micros, p: Process)
    requires Five(actors) && BallotReady(actors, at, p)
    ensures var q := Step(p, OpenVoting((at + FREEZE_WINDOW) / 1000));
      Balloting5(actors, 0, at + FREEZE_WINDOW + VOTING_WINDOW, q)
  {
    OpenStep(p, (at + FREEZE_WINDOW) / 1000);
    assert VotesIn(p.votes, 1) == [];
    hide Inv, FirstOf, Distinct, Step;
  }

  lemma OpenStep(p: Process, now: Millis)
    requires Inv(p) && p.stage == BallotPreparation && Elapsed(p.opensAt, now)
    ensures var q := Step(p, OpenVoting(now));
      Inv(q) && q == p.(stage := Voting, log := q.log, events := q.events, tokens := q.tokens)
  {
    StepKeepsInv(p, OpenVoting(now));
    AdvanceForward(p, Voting);
    hide Inv, LogInv, Advance;
  }

  lemma CastNext(actors: seq<Actor>, k: nat, closes: Micros, p: Process)
    requires Five(actors) && k < THRESHOLD && Balloting5(actors, k, closes, p)
    ensures Balloting5(actors, k + 1, closes, Step(p, Cast(actors[k], actors[0])))
  {
    FirstOfHas(actors, THRESHOLD, k);
    CastStep(p, actors[k], actors[0]);
    var vote := Vote(actors[0], 1);
    assert (p.votes + [vote])[..|p.votes|] == p.votes;
    hide Inv, FirstOf, Step;
  }

  lemma CastStep(p: Process, actor: Actor, proposal: ProposalId)
    requires Inv(p) && p.stage == Voting && Seat(actor, p.cycle) in p.eligible && Seat(actor, p.cycle) !in p.consumed
    requires proposal in p.proposals && p.proposals[proposal].state == Frozen
    ensures var q := Step(p, Cast(actor, proposal));
      && Inv(q)
      && q == p.(consumed := p.consumed + {Seat(actor, p.cycle)}, votes := p.votes + [Vote(proposal, p.cycle)])
  {
    hide LogInv, ThresholdInv, BallotInv, VoteInv, OutcomeInv, VerificationInv;
    assert Seat(actor, p.cycle) in p.tokens by { assert SeatInv(p); }
    hide Inv;
    StepKeepsInv(p, Cast(actor, proposal));
  }

  lemma {:induction false} AllCast(actors: seq<Actor>, k: nat, closes: Micros, p: Process)
    requires Five(actors) && k <= THRESHOLD && Balloting5(actors, 0, closes, p)
    ensures Balloting5(actors, k, closes, Run(p, Each(actors, a => Cast(a, actors[0]), k)))
  {
    if k > 0 {
      AllCast(actors, k - 1, closes, p);
      EachNext(actors, a => Cast(a, actors[0]), k - 1, p);
      hide Run, Step, Each, Balloting5;
      CastNext(actors, k - 1, closes, Run(p, Each(actors, a => Cast(a, actors[0]), k - 1)));
    }
  }

  /** A mandate that members could still contest until 72 hours after `closes`. */
  ghost predicate Contestable(actors: seq<Actor>, closes: Micros, p: Process)
    requires Five(actors)
  {
    && Inv(p) && IsDecided(p) && p.mandate.Some? && p.closesAt == Some(closes)
    && Seat(actors[0], p.cycle) in p.eligible
  }

  lemma MandatingDecides(r: Process, m: Mandate)
    requires r.stage == Mandated
    ensures var q := Mandating(r, m);
      && q.mandate.Some? && q.stage in {Mandated, Acting}
      && q.closesAt == r.closesAt && q.cycle == r.cycle && q.eligible == r.eligible
  {
    var q := if r.mandate.Some? then r else r.(mandate := Some(m));
    AdvanceGrows(q, Transition(Mandated, Acting, MandateDecided, r.cycle));
    hide Advance;
  }

  lemma CloseDecides(p: Process, now: Millis)
    requires Inv(p) && p.stage == Voting && Elapsed(p.closesAt, now) && |VotesIn(p.votes, p.cycle)| >= THRESHOLD
    ensures var q := Closed(p, now);
      && q.mandate.Some? && q.stage in {Mandated, Acting}
      && q.closesAt == p.closesAt && q.cycle == p.cycle && q.eligible == p.eligible
  {
    AdvanceForward(p, Mandated);
    hide Inv, LogInv, Advance, Decide, Mandating;
    var r := Advance(p, Transition(Voting, Mandated, VotingWindowClosed, p.cycle)).value;
    MandatingDecides(r, Decide(VotesIn(p.votes, p.cycle), now));
  }

  lemma CloseNext(actors: seq<Actor>, closes: Micros, p: Process)
    requires Five(actors) && Balloting5(actors, THRESHOLD, closes, p)
    ensures Contestable(actors, closes, Step(p, CloseVoting(closes / 1000)))
  {
    FirstOfHas(actors, THRESHOLD, 0);
    assert Step(p, CloseVoting(closes / 1000)) == Closed(p, closes / 1000);
    hide Inv, FirstOf, Closed, Distinct, Step;
    StepKeepsInv(p, CloseVoting(closes / 1000));
    CloseDecides(p, closes / 1000);
  }

  ghost function MandateScript(actors: seq<Actor>, at: Micros): seq<Action>
    requires Five(actors)
  {
    BallotScript(actors, at) + [OpenVoting((at + FREEZE_WINDOW) / 1000)]
    + Each(actors, a => Cast(a, actors[0]), THRESHOLD)
    + [CloseVoting((at + FREEZE_WINDOW + VOTING_WINDOW) / 1000)]
  }

  lemma RunOne(actions: seq<Action>, a: Action)
    ensures Run(NEW_PROCESS, actions + [a]) == Step(Run(NEW_PROCESS, actions), a)
  {
    assert (actions + [a])[..|actions|] == actions;
  }

  lemma MandateIsReached(actors: seq<Actor>, at: Micros)
    requires Five(actors)
    ensures Contestable(actors, at + FREEZE_WINDOW + VOTING_WINDOW, Run(NEW_PROCESS, MandateScript(actors, at)))
  {
    var closes := at + FREEZE_WINDOW + VOTING_WINDOW;
    var ballot, open := BallotScript(actors, at), OpenVoting((at + FREEZE_WINDOW) / 1000);
    var casts := Each(actors, a => Cast(a, actors[0]), THRESHOLD);
    BallotIsReached(actors, at);
    RunOne(ballot, open);
    OpenNext(actors, at, Run(NEW_PROCESS, ballot));
    AllCast(actors, THRESHOLD, closes, Run(NEW_PROCESS, ballot + [open]));
    RunKeepsDecisions(ballot + [open], casts);
    RunOne(ballot + [open] + casts, CloseVoting(closes / 1000));
    hide Run, Step, Each, BallotScript, BallotReady, Balloting5, Contestable;
    CloseNext(actors, closes, Run(NEW_PROCESS, ballot + [open] + casts));
  }

  // ---- The end of year 9999 -----------------------------------------------

  const NEW_YEAR := Fields(10000, 1, 1, 0, 0, 0, 0)
  const YEAR_10000: Millis := 253_402_300_800_000

  lemma NewYearInstant()
    ensures Valid(NEW_YEAR) && InstantOf(NEW_YEAR) == YEAR_10000
  {
    assert IsLeap(10000) && DayFromYear(10000) == 2_932_897;
  }

  lemma YearBefore10000(t: Instant)
    requires IsDate(t)
    ensures FieldsOf(t).year >= 10000 <==> t >= YEAR_10000
  {
    var f := FieldsOf(t);
    NewYearInstant();
    InstantsOrdered(NEW_YEAR, f);
    hide InstantOf;
    assert f.year >= 10000 <==> FieldsLeq(NEW_YEAR, f);
  }

  const EPOCH := Fields(1970, 1, 1, 0, 0, 0, 0)

  lemma EpochInstant()
    ensures Valid(EPOCH) && InstantOf(EPOCH) == 0
  {
  }

  lemma YearFrom0(t: Instant)
    requires IsDate(t) && t >= 0
    ensures FieldsOf(t).year >= 0
  {
    EpochInstant();
    hide Valid, InstantOf, FieldsOf, DateOf;
    InstantsOrdered(EPOCH, FieldsOf(t));
  }

  /**
   * A ballot that closes in the last hour of year 9999: a millisecond before the year ends, the database would
   * take a member's contestation, and both routes say that the 72 hours are over.
   */
  lemma WindowPastYear9999(actors: seq<Actor>)
    requires Five(actors)
    ensures var at, now := (YEAR_10000 - MS_PER_HOUR) * 1000 - FREEZE_WINDOW - VOTING_WINDOW, YEAR_10000 - 1;
      var p, member := Run(NEW_PROCESS, MandateScript(actors, at)), Participant(actors[0]);
      && Representable(p, now) && p.closesAt.Some? && now <= WindowEnd(p)
      && Guard(p, {}, actors[0], now).Ok?
      && !CanContest(p, {}, member, now) && Contest(p, {}, member, now, now) == Err(WindowClosed)
  {
    var at, now := (YEAR_10000 - MS_PER_HOUR) * 1000 - FREEZE_WINDOW - VOTING_WINDOW, YEAR_10000 - 1;
    var p := Run(NEW_PROCESS, MandateScript(actors, at));
    MandateIsReached(actors, at);
    hide Run, Inv, FieldsOf, ToIso, Guard;
    assert WindowEnd(p) == YEAR_10000 + 71 * MS_PER_HOUR;
    YearBefore10000(now);
    YearFrom0(now);
    YearBefore10000(WindowEnd(p));
    WindowRightIffFourDigits(p, {}, actors[0], now);
  }
}
