/**
 * What each request does to a process, for every process that satisfies the invariant: when it takes effect, what
 * it changes, and that it changes nothing else. Numbers are those of the design: five members, ten minutes, 72 hours.
 */
module CivicLaws {
  import opened Prelude
  import opened CivicProcess

  /** The same process up to its stage and its two logs. */
  ghost predicate SameButStage(p: Process, q: Process) {
    q == p.(stage := q.stage, log := q.log, events := q.events)
  }

  /** The instant has come, at the clock's millisecond. */
  predicate HasCome(instant: Option<Micros>, now: Millis) {
    instant.Some? && instant.value / 1000 <= now
  }

  // ---- Confirming and proposing -------------------------------------------

  /** Five different members confirm, and the fifth moves the process on. */
  lemma ConfirmExactly(p: Process, actor: Actor)
    requires Inv(p)
    ensures var q := Step(p, Confirm(actor));
      if p.stage == Confirmation && actor !in p.confirmers
      then SameButStage(p.(confirmers := p.confirmers + {actor}), q)
           && q.stage == if |p.confirmers| == 4 then Proposals else Confirmation
      else q == p
  {
    if p.stage == Confirmation && actor !in p.confirmers {
      var more := p.(confirmers := p.confirmers + {actor});
      LogFrame(p, more);
      AdvanceForward(more, Proposals);
      assert |p.confirmers| < 5 && |more.confirmers| == |p.confirmers| + 1;
      hide Inv, LogInv, Advance;
    }
  }

  /** Five proposals by five authors, and the fifth moves the process on. */
  lemma ProposeExactly(p: Process, id: ProposalId, author: Actor)
    requires Inv(p)
    ensures var q := Step(p, Propose(id, author));
      if p.stage == Proposals && id !in p.proposals && forall k <- p.proposals :: p.proposals[k].author != author
      then SameButStage(p.(proposals := p.proposals[id := Proposal(author, Published)]), q)
           && q.stage == if |p.proposals| == 4 then Deliberation else Proposals
      else q == p
  {
    assert LogInv(p) && (p.stage == Proposals ==> |p.proposals| < 5) by { assert ThresholdInv(p); }
    hide Inv, LogInv;
    if p.stage == Proposals && id !in p.proposals && forall k <- p.proposals :: p.proposals[k].author != author {
      ProposeUnfolds(p, id, author);
      hide Step, Advance;
      var more := p.(proposals := p.proposals[id := Proposal(author, Published)]);
      MapGrowth(p.proposals, id, Proposal(author, Published));
      LogFrame(p, more);
      AdvanceForward(more, Deliberation);
    }
  }

  lemma ProposeUnfolds(p: Process, id: ProposalId, author: Actor)
    requires p.stage == Proposals && id !in p.proposals && forall k <- p.proposals :: p.proposals[k].author != author
    ensures var more := p.(proposals := p.proposals[id := Proposal(author, Published)]);
      var r := Advance(more, Transition(Proposals, Deliberation, ProposalThreshold, 1));
      Step(p, Propose(id, author)) == if |more.proposals| < 5 || r.None? then more else r.value
  {
    hide Advance;
  }

  /** A proposal is revised once, while proposals are being collected. */
  lemma ReviseExactly(p: Process, id: ProposalId)
    ensures Step(p, Revise(id)) ==
      if p.stage == Proposals && id in p.proposals && p.proposals[id].state == Published
      then p.(proposals := p.proposals[id := p.proposals[id].(state := Revised)]) else p
  {
  }

  /** A proposal is withdrawn at any time before it is on a ballot. */
  lemma WithdrawExactly(p: Process, id: ProposalId)
    ensures Step(p, Withdraw(id)) ==
      if id in p.proposals && p.proposals[id].state != Withdrawn && p.proposals[id].state != Frozen
      then p.(proposals := p.proposals[id := p.proposals[id].(state := Withdrawn)]) else p
  {
  }

  // ---- Deliberating -------------------------------------------------------

  /**
   * Five different members contribute; the fifth, and any contribution after a missed quorum, freezes the ballot:
   * it opens ten minutes later, closes 72 hours after that, holds what is not withdrawn, and seats the members.
   */
  lemma ContributeExactly(p: Process, actor: Actor, proposal: ProposalId, at: Micros, members: set<Actor>)
    requires Inv(p)
    ensures var q, more := Step(p, Contribute(actor, proposal, at, members)), p.contributors + {actor};
      if p.stage != Deliberation || proposal !in p.proposals then q == p
      else if |more| < 5 then q == p.(contributors := more)
      else
        && q == p.(contributors := more, stage := BallotPreparation, log := q.log, events := q.events,
                   opensAt := Some(at + 600_000_000), closesAt := Some(at + 600_000_000 + 259_200_000_000),
                   proposals := q.proposals, eligible := q.eligible)
        && q.proposals.Keys == p.proposals.Keys
        && (forall id <- p.proposals ::
              q.proposals[id] == p.proposals[id].(
                state := if p.proposals[id].state == Withdrawn then Withdrawn else Frozen))
        && (forall s :: s in q.eligible <==> s in p.eligible || (s.cycle == p.cycle && s.actor in members))
  {
    assert LogInv(p);
    hide Inv, LogInv;
    if p.stage == Deliberation && proposal in p.proposals {
      ContributeUnfolds(p, actor, proposal, at, members);
      hide Step, Advance;
      var more := p.(contributors := p.contributors + {actor});
      LogFrame(p, more);
      AdvanceForward(more, BallotPreparation);
      var r := Advance(more, Transition(Deliberation, BallotPreparation, DeliberationThreshold, p.cycle));
      BallotWritten(r.value, at, members);
      hide Balloting;
    }
  }

  lemma BallotWritten(r: Process, at: Micros, members: set<Actor>)
    ensures var q := Balloting(r, at, members);
      && q == r.(opensAt := Some(at + 600_000_000), closesAt := Some(at + 600_000_000 + 259_200_000_000),
                 proposals := q.proposals, eligible := q.eligible)
      && q.proposals.Keys == r.proposals.Keys
      && (forall id <- r.proposals ::
            q.proposals[id] == r.proposals[id].(
              state := if r.proposals[id].state == Withdrawn then Withdrawn else Frozen))
      && (forall s :: s in q.eligible <==> s in r.eligible || (s.cycle == r.cycle && s.actor in members))
  {
    forall s ensures s in Balloting(r, at, members).eligible
      <==> s in r.eligible || (s.cycle == r.cycle && s.actor in members)
    {
      assert s == Seat(s.actor, s.cycle);
    }
  }

  lemma ContributeUnfolds(p: Process, actor: Actor, proposal: ProposalId, at: Micros, members: set<Actor>)
    requires p.stage == Deliberation && proposal in p.proposals
    ensures var more := p.(contributors := p.contributors + {actor});
      var r := Advance(more, Transition(Deliberation, BallotPreparation, DeliberationThreshold, p.cycle));
      Step(p, Contribute(actor, proposal, at, members))
        == if |more.contributors| < 5 || r.None? then more else Balloting(r.value, at, members)
  {
    hide Advance, Balloting;
  }

  // ---- Reading, opening and closing ---------------------------------------

  /** A ballot opens at the first read at or after its instant, with a token for every seat of its cycle. */
  lemma OpenExactly(p: Process, now: Millis)
    requires Inv(p)
    ensures var q := Step(p, OpenVoting(now));
      if p.stage == BallotPreparation && p.opensAt.value / 1000 <= now
      then SameButStage(p.(tokens := q.tokens), q) && q.stage == Voting
           && forall s :: s in q.tokens <==> s in p.tokens || (s in p.eligible && s.cycle == p.cycle)
      else q == p
  {
    assert LogInv(p) && (p.stage == BallotPreparation ==> p.opensAt.Some?) by { assert BallotInv(p); }
    assert Step(p, OpenVoting(now)) == Opened(p, now);
    hide Inv, LogInv, Advance, Step;
    if p.stage == BallotPreparation {
      AdvanceForward(p, Voting);
    }
  }

  /** A ballot closes at the first read at or after its instant: below five votes it fails, otherwise it decides. */
  lemma CloseExactly(p: Process, now: Millis)
    requires Inv(p)
    ensures var q := Step(p, CloseVoting(now));
      if p.stage == Voting && HasCome(p.closesAt, now) then
        if |VotesIn(p.votes, p.cycle)| < 5
        then SameButStage(p.(cycle := p.cycle + 1), q) && q.stage == Deliberation
        else
          && q.mandate.Some? && q.mandate.value.decidedAt == now
          && SameButStage(p.(mandate := q.mandate), q)
          && IsOutcome(VotesIn(p.votes, p.cycle), q.mandate.value)
          && q.stage == if q.mandate.value.proposal.Some? then Acting else Mandated
      else q == p
  {
    assert LogInv(p);
    assert p.stage != Voting || !HasCome(p.closesAt, now) ==> Step(p, CloseVoting(now)) == p;
    if p.stage == Voting && HasCome(p.closesAt, now) {
      if |VotesIn(p.votes, p.cycle)| < 5 {
        NoQuorumUnfolds(p, now);
        hide Inv, LogInv, Step, VotesIn;
        AdvanceSucceeds(p, Transition(Voting, Deliberation, QuorumNotReached, p.cycle));
      } else {
        hide Inv, LogInv, Step, VotesIn;
        CloseWithQuorum(p, now);
      }
    }
  }

  lemma NoQuorumUnfolds(p: Process, now: Millis)
    requires p.stage == Voting && HasCome(p.closesAt, now) && |VotesIn(p.votes, p.cycle)| < 5
    ensures Step(p, CloseVoting(now)) ==
      match Advance(p, Transition(Voting, Deliberation, QuorumNotReached, p.cycle))
      case None => p
      case Some(r) => r.(cycle := p.cycle + 1)
  {
    hide Advance, Mandating, VotesIn, Decide;
  }

  lemma CloseWithQuorum(p: Process, now: Millis)
    requires Inv(p) && p.stage == Voting && HasCome(p.closesAt, now) && |VotesIn(p.votes, p.cycle)| >= 5
    ensures var q := Step(p, CloseVoting(now));
      && q.mandate.Some? && q.mandate.value.decidedAt == now
      && SameButStage(p.(mandate := q.mandate), q)
      && IsOutcome(VotesIn(p.votes, p.cycle), q.mandate.value)
      && q.stage == if q.mandate.value.proposal.Some? then Acting else Mandated
  {
    var votes := VotesIn(p.votes, p.cycle);
    assert LogInv(p) && p.mandate.None? by { assert OutcomeInv(p); }
    QuorumUnfolds(p, now);
    hide Inv, LogInv, Advance, IsOutcome, Mandating, VotesIn, Step;
    DecideIsOutcome(votes, now);
    AdvanceForward(p, Mandated);
    var r := Advance(p, Transition(Voting, Mandated, VotingWindowClosed, p.cycle)).value;
    MandatingExactly(r, Decide(votes, now));
  }

  lemma QuorumUnfolds(p: Process, now: Millis)
    requires p.stage == Voting && HasCome(p.closesAt, now) && |VotesIn(p.votes, p.cycle)| >= 5
    ensures Step(p, CloseVoting(now)) ==
      match Advance(p, Transition(Voting, Mandated, VotingWindowClosed, p.cycle))
      case None => p
      case Some(r) => Mandating(r, Decide(VotesIn(p.votes, p.cycle), now))
  {
    hide Advance, Mandating, VotesIn, Decide;
  }

  lemma MandatingExactly(r: Process, m: Mandate)
    requires LogInv(r) && r.stage == Mandated && r.mandate.None?
    ensures var q := Mandating(r, m);
      SameButStage(r.(mandate := Some(m)), q) && q.stage == if m.proposal.Some? then Acting else Mandated
  {
    LogFrame(r, r.(mandate := Some(m)));
    AdvanceForward(r.(mandate := Some(m)), Acting);
    hide LogInv, Advance;
  }

  /** A read opens or closes by the clock alone, and otherwise leaves the process as it is. */
  lemma ReadExactly(p: Process, now: Millis)
    requires Inv(p)
    ensures Visible(p, now) == if p.stage == BallotPreparation then Step(p, OpenVoting(now))
                               else if p.stage == Voting then Step(p, CloseVoting(now)) else p
    ensures p.stage == BallotPreparation ==>
      p.opensAt.Some? && (Visible(p, now).stage != p.stage <==> p.opensAt.value / 1000 <= now)
    ensures p.stage == Voting ==>
      p.closesAt.Some? && (Visible(p, now).stage != p.stage <==> p.closesAt.value / 1000 <= now)
    ensures Visible(p, now).stage == p.stage ==> Visible(p, now) == p
  {
    assert p.stage in {BallotPreparation, Voting} ==> p.opensAt.Some? && p.closesAt.Some? by {
      assert BallotInv(p);
    }
    OpenExactly(p, now);
    CloseExactly(p, now);
    hide Inv;
  }

  // ---- Voting -------------------------------------------------------------

  /** A member with a seat votes once per cycle, for a proposal on the open ballot. */
  lemma CastExactly(p: Process, actor: Actor, proposal: ProposalId)
    requires Inv(p)
    ensures var seat := Seat(actor, p.cycle);
      Step(p, Cast(actor, proposal)) ==
        if p.stage == Voting && seat in p.eligible && seat !in p.consumed
           && proposal in p.proposals && p.proposals[proposal].state == Frozen
        then p.(consumed := p.consumed + {seat}, votes := p.votes + [Vote(proposal, p.cycle)]) else p
  {
    assert SeatInv(p);
    hide LogInv, ThresholdInv, BallotInv, VoteInv, OutcomeInv, VerificationInv;
  }

  /** Why a vote is refused: the first obstacle, or none exactly when the vote is cast. */
  lemma CastAnswersExactly(p: Process, actor: Actor, proposal: ProposalId)
    ensures var seat, answer := Seat(actor, p.cycle), Voted(p, actor, proposal);
      && (answer == Err(NoToken) <==> seat !in p.tokens || seat in p.consumed)
      && (answer == Err(StageClosed) <==> seat in p.tokens && seat !in p.consumed && p.stage != Voting)
      && (answer == Err(UnknownProposal) <==>
            seat in p.tokens && seat !in p.consumed && p.stage == Voting && proposal !in p.proposals)
      && (answer.Ok? <==> Step(p, Cast(actor, proposal)) != p)
      && (answer.Ok? ==> answer.value == Step(p, Cast(actor, proposal)))
  {
    if Voted(p, actor, proposal).Ok? {
      var q := Voted(p, actor, proposal).value;
      assert |q.votes| == |p.votes| + 1;
    }
  }

  /** The votes of a cycle are the votes with its number, in the order in which they were cast. */
  lemma {:induction false} VotesInExactly(votes: seq<Vote>, cycle: nat, v: Vote)
    ensures multiset(VotesIn(votes, cycle))[v] == if v.cycle == cycle then multiset(votes)[v] else 0
  {
    if votes != [] {
      var n := |votes| - 1;
      VotesInExactly(votes[..n], cycle, v);
      assert votes == votes[..n] + [votes[n]];
    }
  }

  /** The count of a proposal is the number of votes for it. */
  lemma {:induction false} CountForExactly(votes: seq<Vote>, proposal: ProposalId)
    ensures var named := seq(|votes|, i requires 0 <= i < |votes| => votes[i].proposal);
      CountFor(votes, proposal) == multiset(named)[proposal]
  {
    if votes != [] {
      var tail := votes[1..];
      CountForExactly(tail, proposal);
      var named := seq(|votes|, i requires 0 <= i < |votes| => votes[i].proposal);
      assert named == [votes[0].proposal] + seq(|tail|, i requires 0 <= i < |tail| => tail[i].proposal);
    }
  }

  lemma VotedFor(votes: seq<Vote>, w: ProposalId)
    ensures CountFor(votes, w) > 0 <==> exists v <- votes :: v.proposal == w
  {
    CountForExactly(votes, w);
    var named := seq(|votes|, i requires 0 <= i < |votes| => votes[i].proposal);
    assert CountFor(votes, w) > 0 <==> w in named;
    if exists v <- votes :: v.proposal == w {
      var v :| v in votes && v.proposal == w;
      var i :| 0 <= i < |votes| && votes[i] == v;
      assert named[i] == w;
    }
    if w in named {
      var i :| 0 <= i < |votes| && named[i] == w;
      assert votes[i] in votes;
    }
  }

  /** The proposal that wins, if one does, was voted for and has more votes than every other. */
  lemma PluralityExactly(votes: seq<Vote>, m: Mandate)
    requires IsOutcome(votes, m)
    ensures m.totalVotes == |votes|
    ensures forall v <- votes :: CountFor(votes, v.proposal) <= m.voteCount
    ensures exists v <- votes :: CountFor(votes, v.proposal) == m.voteCount
    ensures forall w :: m.proposal == Some(w) <==>
              && (exists v <- votes :: v.proposal == w)
              && (forall v <- votes :: v.proposal != w ==> CountFor(votes, v.proposal) < CountFor(votes, w))
  {
    var top :| top in votes && CountFor(votes, top.proposal) == m.voteCount;
    VotedFor(votes, top.proposal);
    forall w ensures m.proposal == Some(w) <==>
      && (exists v <- votes :: v.proposal == w)
      && (forall v <- votes :: v.proposal != w ==> CountFor(votes, v.proposal) < CountFor(votes, w))
    {
      VotedFor(votes, w);
      assert m.proposal == Some(w) <==> SoleWith(votes, m.voteCount, w);
    }
    hide CountFor;
  }

  // ---- Acting and verifying -----------------------------------------------

  /** Action marked ready opens verification. */
  lemma MarkReadyExactly(p: Process)
    requires Inv(p)
    ensures var q := Step(p, MarkReady);
      if p.stage == Acting then SameButStage(p, q) && q.stage == Verifying else q == p
  {
    assert LogInv(p);
    assert Step(p, MarkReady) == MarkedReady(p);
    hide Inv, LogInv, Advance, Step;
    if p.stage == Acting {
      AdvanceForward(p, Verifying);
    }
  }

  /** Each member attests once, and the fifth attestation of one outcome archives the process with it. */
  lemma AttestExactly(p: Process, actor: Actor, outcome: Delivery)
    requires Inv(p)
    ensures var q, attested := Step(p, Attest(actor, outcome)), p.attested[actor := outcome];
      var agreeing := |set a | a in p.attested && p.attested[a] == outcome|;
      var yes := |set a | a in attested && attested[a] == Delivered|;
      var no := |set a | a in attested && attested[a] == NotDelivered|;
      if p.stage != Verifying || actor in p.attested then q == p
      else if agreeing < 4 then q == p.(attested := attested)
      else SameButStage(p.(attested := attested, verification := Some(Verification(outcome, yes, no))), q)
           && q.stage == Archived
  {
    if p.stage == Verifying && actor !in p.attested {
      var q := p.(attested := p.attested[actor := outcome]);
      var yes, no := |Attesters(q.attested, Delivered)|, |Attesters(q.attested, NotDelivered)|;
      AttestStep(p, actor, outcome);
      AttestersGrow(p.attested, actor, outcome, Delivered);
      AttestersGrow(p.attested, actor, outcome, NotDelivered);
      assert VerificationInv(p);
      ArchiveLogs(p, q, Verification(Delivered, yes, no), DeliveredThreshold);
      ArchiveLogs(p, q, Verification(NotDelivered, yes, no), NotDeliveredThreshold);
      hide Inv, LogInv, Step, Archiving;
    }
  }
}
