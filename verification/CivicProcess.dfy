/**
 * The civic process of one signal: nine stages, an append-only transition log and event log that ride
 * along, ballots that may be repeated in numbered cycles, one mandate and one verification.
 */
module CivicProcess {
  import opened Prelude

  type Actor = string
  type ProposalId = string

  /** Database instants count microseconds; the application's clock counts milliseconds. */
  type Micros = int
  type Millis = int

  const THRESHOLD := 5
  const FREEZE_WINDOW: Micros := 600_000_000
  const VOTING_WINDOW: Micros := 259_200_000_000

  datatype Stage =
    | Confirmation | Proposals | Deliberation | BallotPreparation | Voting
    | Mandated | Acting | Verifying | Archived

  datatype Reason =
    | ConfirmationThreshold | ProposalThreshold | DeliberationThreshold | BallotPrepared
    | QuorumNotReached | VotingWindowClosed | MandateDecided | ActionMarkedReady
    | DeliveredThreshold | NotDeliveredThreshold

  datatype Transition = Transition(from: Stage, to: Stage, reason: Reason, cycle: nat)

  datatype EventType = Created | MovedTo(stage: Stage) | ReturnedAfterQuorumFailure
  datatype Event = Event(kind: EventType, cycle: nat)

  datatype Lifecycle = Published | Revised | Withdrawn | Frozen
  datatype Proposal = Proposal(author: Actor, state: Lifecycle)
  datatype Vote = Vote(proposal: ProposalId, cycle: nat)

  /** A cast token or a place on the voter list belongs to one actor and one ballot cycle. */
  datatype Seat = Seat(actor: Actor, cycle: nat)

  datatype Mandate = Mandate(proposal: Option<ProposalId>, voteCount: nat, totalVotes: nat, decidedAt: Millis)
  datatype Delivery = Delivered | NotDelivered
  datatype Verification = Verification(outcome: Delivery, delivered: nat, notDelivered: nat)

  datatype Process = Process(
    stage: Stage,
    cycle: nat,
    opensAt: Option<Micros>,
    closesAt: Option<Micros>,
    log: seq<Transition>,
    events: seq<Event>,
    confirmers: set<Actor>,
    proposals: map<ProposalId, Proposal>,
    contributors: set<Actor>,
    eligible: set<Seat>,
    tokens: set<Seat>,
    consumed: set<Seat>,
    votes: seq<Vote>,
    mandate: Option<Mandate>,
    attested: map<Actor, Delivery>,
    verification: Option<Verification>)

  const NEW_PROCESS := Process(
    Confirmation, 1, None, None, [], [Event(Created, 1)],
    {}, map[], {}, {}, {}, {}, [], None, map[], None)

  // ---- The two logs -------------------------------------------------------

  predicate SameKey(t: Transition, u: Transition) {
    t.from == u.from && t.to == u.to && t.cycle == u.cycle
  }

  /** The UNIQUE (process, from, to, cycle) constraint would reject `t`. */
  predicate Taken(log: seq<Transition>, t: Transition) {
    exists i :: 0 <= i < |log| && SameKey(log[i], t)
  }

  predicate SupportedPath(t: Transition) {
    match t.reason
    case ConfirmationThreshold => t.from == Confirmation && t.to == Proposals
    case ProposalThreshold => t.from == Proposals && t.to == Deliberation
    case DeliberationThreshold => t.from == Deliberation && t.to == BallotPreparation
    case BallotPrepared => t.from == BallotPreparation && t.to == Voting
    case QuorumNotReached => t.from == Voting && t.to == Deliberation
    case VotingWindowClosed => t.from == Voting && t.to == Mandated
    case MandateDecided => t.from == Mandated && t.to == Acting
    case ActionMarkedReady => t.from == Acting && t.to == Verifying
    case DeliveredThreshold => t.from == Verifying && t.to == Archived
    case NotDeliveredThreshold => t.from == Verifying && t.to == Archived
  }

  function EventOf(t: Transition): Event {
    Event(if t.reason == QuorumNotReached then ReturnedAfterQuorumFailure else MovedTo(t.to), t.cycle)
  }

  /** Inserted `ON CONFLICT (process, type, cycle) DO NOTHING`. */
  function AddEvent(events: seq<Event>, e: Event): seq<Event> {
    if e in events then events else events + [e]
  }

  /** Insert the transition, move the stage, insert the event; nothing at all when the key is taken. */
  function Advance(p: Process, t: Transition): Option<Process> {
    if Taken(p.log, t) then
      None
    else
      Some(p.(stage := t.to, log := p.log + [t], events := AddEvent(p.events, EventOf(t))))
  }

  // ---- Counting votes -----------------------------------------------------

  function VotesIn(votes: seq<Vote>, cycle: nat): seq<Vote> {
    if votes == [] then
      []
    else
      var v := votes[|votes| - 1];
      VotesIn(votes[..|votes| - 1], cycle) + if v.cycle == cycle then [v] else []
  }

  function CountFor(votes: seq<Vote>, proposal: ProposalId): nat {
    if votes == [] then 0
    else CountFor(votes[1..], proposal) + if votes[0].proposal == proposal then 1 else 0
  }

  ghost predicate IsTop(votes: seq<Vote>, n: nat) {
    && (forall v <- votes :: CountFor(votes, v.proposal) <= n)
    && (exists v <- votes :: CountFor(votes, v.proposal) == n)
  }

  /** `w` has `n` votes and no other proposal has. */
  ghost predicate SoleWith(votes: seq<Vote>, n: nat, w: ProposalId) {
    && CountFor(votes, w) == n
    && forall v <- votes :: CountFor(votes, v.proposal) == n ==> v.proposal == w
  }

  /** `m` is the plurality outcome of `votes`: a proposal wins when it alone has the largest count. */
  ghost predicate IsOutcome(votes: seq<Vote>, m: Mandate) {
    && m.totalVotes == |votes|
    && IsTop(votes, m.voteCount)
    && (forall w :: m.proposal == Some(w) <==> SoleWith(votes, m.voteCount, w))
  }

  // ---- One row of the tally per proposal ----------------------------------

  datatype TallyRow = TallyRow(proposal: ProposalId, count: nat)

  /** What `GROUP BY proposal_id ORDER BY count(*) DESC` may answer; ties come in any order. */
  ghost predicate IsTally(rows: seq<TallyRow>, votes: seq<Vote>) {
    && (forall i, j :: 0 <= i < j < |rows| ==> rows[i].proposal != rows[j].proposal && rows[i].count >= rows[j].count)
    && (forall row <- rows :: row.count == CountFor(votes, row.proposal) > 0)
    && (forall v <- votes :: exists i :: 0 <= i < |rows| && rows[i].proposal == v.proposal)
  }

  /** The largest number of votes that a proposal among the given ones has. */
  function TopCount(votes: seq<Vote>, among: seq<Vote>): nat {
    if among == [] then
      0
    else
      var n, rest := CountFor(votes, among[0].proposal), TopCount(votes, among[1..]);
      if n > rest then n else rest
  }

  function Leaders(votes: seq<Vote>): set<ProposalId> {
    set v | v in votes && CountFor(votes, v.proposal) == TopCount(votes, votes) :: v.proposal
  }

  /** The outcome of a ballot: the single leader, or nobody when several proposals lead. */
  ghost function Decide(votes: seq<Vote>, now: Millis): Mandate
    requires votes != []
  {
    TopCountIsTop(votes, votes);
    var leaders := Leaders(votes);
    var leader :| leader in leaders;
    Mandate(if leaders == {leader} then Some(leader) else None, TopCount(votes, votes), |votes|, now)
  }

  lemma {:induction false} TopCountIsTop(votes: seq<Vote>, among: seq<Vote>)
    ensures forall v <- among :: CountFor(votes, v.proposal) <= TopCount(votes, among)
    ensures among != [] ==> exists v <- among :: CountFor(votes, v.proposal) == TopCount(votes, among)
    ensures votes != [] && votes == among ==> Leaders(votes) != {}
  {
    if among != [] {
      TopCountIsTop(votes, among[1..]);
      assert among[0] in among && forall v <- among[1..] :: v in among;
      assert forall v <- among :: v == among[0] || v in among[1..];
    }
    if votes != [] && votes == among {
      var v :| v in among && CountFor(votes, v.proposal) == TopCount(votes, among);
      assert v.proposal in Leaders(votes);
    }
  }

  lemma DecideIsOutcome(votes: seq<Vote>, now: Millis)
    requires votes != []
    ensures IsOutcome(votes, Decide(votes, now))
  {
    TopCountIsTop(votes, votes);
    var m, leaders := Decide(votes, now), Leaders(votes);
    forall w ensures m.proposal == Some(w) <==> SoleWith(votes, m.voteCount, w) {
      var leader :| leader in leaders && m.proposal == if leaders == {leader} then Some(leader) else None;
      if SoleWith(votes, m.voteCount, w) {
        assert forall k <- leaders :: k == w;
        assert leaders == {w};
      }
      if leaders == {w} {
        forall v | v in votes && CountFor(votes, v.proposal) == m.voteCount ensures v.proposal == w {
          assert v.proposal in leaders;
        }
      }
    }
  }

  /** The votes alone fix the outcome. */
  lemma OutcomeUnique(votes: seq<Vote>, m: Mandate, n: Mandate)
    requires IsOutcome(votes, m) && IsOutcome(votes, n) && m.decidedAt == n.decidedAt
    ensures m == n
  {
    assert m.voteCount == n.voteCount;
    if m.proposal.Some? { assert n.proposal == Some(m.proposal.value); }
    if n.proposal.Some? { assert m.proposal == Some(n.proposal.value); }
  }

  // ---- Actions ------------------------------------------------------------

  /**
   * One request that reaches the database. `Contribute` carries the instant its transition would be
   * dated and the active members of the community, who become the voter list.
   */
  datatype Action =
    | Confirm(actor: Actor)
    | Propose(id: ProposalId, author: Actor)
    | Revise(id: ProposalId)
    | Withdraw(id: ProposalId)
    | Contribute(actor: Actor, proposal: ProposalId, at: Micros, members: set<Actor>)
    | OpenVoting(now: Millis)
    | CloseVoting(now: Millis)
    | Cast(actor: Actor, proposal: ProposalId)
    | MarkReady
    | Attest(actor: Actor, outcome: Delivery)

  datatype Refusal = StageClosed | AlreadyDone | UnknownProposal | ProposalFixed | NoToken | NotOnBallot

  function Confirmed(p: Process, actor: Actor): Result<Process, Refusal> {
    if actor in p.confirmers then Err(AlreadyDone)
    else if p.stage != Confirmation then Err(StageClosed)
    else
      var q := p.(confirmers := p.confirmers + {actor});
      if |q.confirmers| < THRESHOLD then
        Ok(q)
      else
        match Advance(q, Transition(Confirmation, Proposals, ConfirmationThreshold, 1))
        case None => Ok(q)
        case Some(r) => Ok(r)
  }

  function Proposed(p: Process, id: ProposalId, author: Actor): Result<Process, Refusal> {
    if p.stage != Proposals then Err(StageClosed)
    else if id in p.proposals || exists k <- p.proposals :: p.proposals[k].author == author then Err(AlreadyDone)
    else
      var q := p.(proposals := p.proposals[id := Proposal(author, Published)]);
      if |q.proposals| < THRESHOLD then
        Ok(q)
      else
        match Advance(q, Transition(Proposals, Deliberation, ProposalThreshold, 1))
        case None => Ok(q)
        case Some(r) => Ok(r)
  }

  function WithState(p: Process, id: ProposalId, state: Lifecycle): Process
    requires id in p.proposals
  {
    p.(proposals := p.proposals[id := p.proposals[id].(state := state)])
  }

  function RevisedProposal(p: Process, id: ProposalId): Result<Process, Refusal> {
    if id !in p.proposals then Err(UnknownProposal)
    else if p.proposals[id].state != Published then Err(ProposalFixed)
    else if p.stage != Proposals then Err(StageClosed)
    else Ok(WithState(p, id, Revised))
  }

  function WithdrawnProposal(p: Process, id: ProposalId): Result<Process, Refusal> {
    if id !in p.proposals then Err(UnknownProposal)
    else if p.proposals[id].state in {Withdrawn, Frozen} then Err(ProposalFixed)
    else Ok(WithState(p, id, Withdrawn))
  }

  function Freeze(proposals: map<ProposalId, Proposal>): map<ProposalId, Proposal> {
    map id | id in proposals ::
      if proposals[id].state == Withdrawn then proposals[id] else proposals[id].(state := Frozen)
  }

  function Contributed(p: Process, actor: Actor, proposal: ProposalId, at: Micros, members: set<Actor>)
    : Result<Process, Refusal>
  {
    if p.stage != Deliberation then Err(StageClosed)
    else if proposal !in p.proposals then Err(UnknownProposal)
    else
      var q := p.(contributors := p.contributors + {actor});
      if |q.contributors| < THRESHOLD then
        Ok(q)
      else
        match Advance(q, Transition(Deliberation, BallotPreparation, DeliberationThreshold, p.cycle))
        case None => Ok(q)
        case Some(r) => Ok(Balloting(r, at, members))
  }

  /** Fix the voting window, freeze what is not withdrawn, and list the voters. */
  function Balloting(p: Process, at: Micros, members: set<Actor>): Process {
    p.(opensAt := Some(at + FREEZE_WINDOW),
       closesAt := Some(at + FREEZE_WINDOW + VOTING_WINDOW),
       proposals := Freeze(p.proposals),
       eligible := p.eligible + (set a | a in members :: Seat(a, p.cycle)))
  }

  /** `new Date(t)` drops the microseconds that a database instant may carry. */
  predicate Elapsed(t: Option<Micros>, now: Millis) {
    t.Some? && t.value / 1000 <= now
  }

  function Opened(p: Process, now: Millis): Process {
    if p.stage != BallotPreparation || !Elapsed(p.opensAt, now) then
      p
    else
      match Advance(p, Transition(BallotPreparation, Voting, BallotPrepared, p.cycle))
      case None => p
      case Some(r) => r.(tokens := r.tokens + (set s | s in r.eligible && s.cycle == p.cycle))
  }

  ghost function Closed(p: Process, now: Millis): Process {
    if p.stage != Voting || !Elapsed(p.closesAt, now) then
      p
    else
      var votes := VotesIn(p.votes, p.cycle);
      if |votes| < THRESHOLD then
        match Advance(p, Transition(Voting, Deliberation, QuorumNotReached, p.cycle))
        case None => p
        case Some(r) => r.(cycle := p.cycle + 1)
      else
        match Advance(p, Transition(Voting, Mandated, VotingWindowClosed, p.cycle))
        case None => p
        case Some(r) => Mandating(r, Decide(votes, now))
  }

  /** The mandate row is inserted once; a single winner opens action in the same transaction. */
  function Mandating(p: Process, m: Mandate): Process {
    var q := if p.mandate.Some? then p else p.(mandate := Some(m));
    if m.proposal.None? then
      q
    else
      match Advance(q, Transition(Mandated, Acting, MandateDecided, p.cycle))
      case None => q
      case Some(r) => r
  }

  /** Casting consumes the actor's token and inserts the vote, which the insert trigger may refuse. */
  function Voted(p: Process, actor: Actor, proposal: ProposalId): Result<Process, Refusal> {
    var seat := Seat(actor, p.cycle);
    if seat !in p.tokens || seat in p.consumed then Err(NoToken)
    else if p.stage != Voting then Err(StageClosed)
    else if proposal !in p.proposals then Err(UnknownProposal)
    else if p.proposals[proposal].state != Frozen then Err(NotOnBallot)
    else Ok(p.(consumed := p.consumed + {seat}, votes := p.votes + [Vote(proposal, p.cycle)]))
  }

  function MarkedReady(p: Process): Process {
    if p.stage != Acting then
      p
    else
      match Advance(p, Transition(Acting, Verifying, ActionMarkedReady, 1))
      case None => p
      case Some(r) => r
  }

  function Attesters(attested: map<Actor, Delivery>, outcome: Delivery): set<Actor> {
    set a | a in attested && attested[a] == outcome
  }

  function Attested(p: Process, actor: Actor, outcome: Delivery): Result<Process, Refusal> {
    if p.stage != Verifying then Err(StageClosed)
    else if actor in p.attested then Err(AlreadyDone)
    else
      var q := p.(attested := p.attested[actor := outcome]);
      var yes, no := |Attesters(q.attested, Delivered)|, |Attesters(q.attested, NotDelivered)|;
      if yes >= THRESHOLD then Ok(Archiving(q, Verification(Delivered, yes, no), DeliveredThreshold))
      else if no >= THRESHOLD then Ok(Archiving(q, Verification(NotDelivered, yes, no), NotDeliveredThreshold))
      else Ok(q)
  }

  function Archiving(p: Process, v: Verification, reason: Reason): Process {
    match Advance(p, Transition(Verifying, Archived, reason, 1))
    case None => p
    case Some(r) => if r.verification.Some? then r else r.(verification := Some(v))
  }

  ghost function Try(p: Process, a: Action): Result<Process, Refusal> {
    match a
    case Confirm(actor) => Confirmed(p, actor)
    case Propose(id, author) => Proposed(p, id, author)
    case Revise(id) => RevisedProposal(p, id)
    case Withdraw(id) => WithdrawnProposal(p, id)
    case Contribute(actor, proposal, at, members) => Contributed(p, actor, proposal, at, members)
    case OpenVoting(now) => Ok(Opened(p, now))
    case CloseVoting(now) => Ok(Closed(p, now))
    case Cast(actor, proposal) => Voted(p, actor, proposal)
    case MarkReady => Ok(MarkedReady(p))
    case Attest(actor, outcome) => Attested(p, actor, outcome)
  }

  /** A refused action rolls back. */
  ghost function Step(p: Process, a: Action): Process {
    match Try(p, a)
    case Ok(q) => q
    case Err(_) => p
  }

  ghost function Run(p: Process, actions: seq<Action>): Process {
    if actions == [] then p else Step(Run(p, actions[..|actions| - 1]), actions[|actions| - 1])
  }

  // ---- The shape of the logs ----------------------------------------------

  function Rank(stage: Stage): nat {
    match stage
    case Confirmation => 0
    case Proposals => 1
    case Deliberation => 2
    case BallotPreparation => 3
    case Voting => 4
    case Mandated => 5
    case Acting => 6
    case Verifying => 7
    case Archived => 8
  }

  /** The log entries of ballot cycles 1 to `n`, each of which missed its quorum. */
  function FailedCycles(n: nat): seq<Transition> {
    if n == 0 then
      []
    else
      FailedCycles(n - 1) + [
        Transition(Deliberation, BallotPreparation, DeliberationThreshold, n),
        Transition(BallotPreparation, Voting, BallotPrepared, n),
        Transition(Voting, Deliberation, QuorumNotReached, n)]
  }

  function Before(stage: Stage): (r: Stage)
    requires stage != Confirmation
    ensures Rank(r) == Rank(stage) - 1
  {
    match stage
    case Proposals => Confirmation
    case Deliberation => Proposals
    case BallotPreparation => Deliberation
    case Voting => BallotPreparation
    case Mandated => Voting
    case Acting => Mandated
    case Verifying => Acting
    case Archived => Verifying
  }

  function ReasonInto(stage: Stage, verdict: Reason): Reason
    requires stage != Confirmation
  {
    match stage
    case Proposals => ConfirmationThreshold
    case Deliberation => ProposalThreshold
    case BallotPreparation => DeliberationThreshold
    case Voting => BallotPrepared
    case Mandated => VotingWindowClosed
    case Acting => MandateDecided
    case Verifying => ActionMarkedReady
    case Archived => verdict
  }

  /** The edge forward into `stage`; only the four ballot edges carry the ballot cycle. */
  function EdgeInto(stage: Stage, cycle: nat, verdict: Reason): Transition
    requires stage != Confirmation
  {
    Transition(Before(stage), stage, ReasonInto(stage, verdict),
               if stage in {BallotPreparation, Voting, Mandated, Acting} then cycle else 1)
  }

  /** The only log that a process in this stage, cycle and verdict can have. */
  function CanonicalLog(stage: Stage, cycle: nat, verdict: Reason): seq<Transition>
    requires cycle >= 1
    decreases Rank(stage)
  {
    if stage == Confirmation then
      []
    else
      CanonicalLog(Before(stage), cycle, verdict) + [EdgeInto(stage, cycle, verdict)]
      + if stage == Deliberation then FailedCycles(cycle - 1) else []
  }

  function EventsOf(log: seq<Transition>): seq<Event> {
    if log == [] then [Event(Created, 1)] else EventsOf(log[..|log| - 1]) + [EventOf(log[|log| - 1])]
  }

  /** A key already in the log belongs to an earlier stage or to an abandoned cycle. */
  predicate Past(stage: Stage, cycle: nat, t: Transition) {
    || Rank(t.from) < Rank(stage)
    || (t.cycle < cycle && t.from in {Deliberation, BallotPreparation, Voting} && t.to != Mandated)
  }

  lemma {:induction false} FailedCyclesPast(n: nat, i: nat)
    requires i < |FailedCycles(n)|
    ensures var t := FailedCycles(n)[i];
      && SupportedPath(t) && 1 <= t.cycle <= n
      && t.from in {Deliberation, BallotPreparation, Voting} && t.to != Mandated
  {
    if i < |FailedCycles(n)| - 3 {
      FailedCyclesPast(n - 1, i);
    }
  }

  lemma {:induction false} CanonicalPast(stage: Stage, cycle: nat, verdict: Reason, i: nat)
    requires cycle >= 1 && verdict in {DeliveredThreshold, NotDeliveredThreshold}
    requires i < |CanonicalLog(stage, cycle, verdict)|
    ensures SupportedPath(CanonicalLog(stage, cycle, verdict)[i])
    ensures Past(stage, cycle, CanonicalLog(stage, cycle, verdict)[i])
    ensures CanonicalLog(stage, cycle, verdict)[i].reason == QuorumNotReached ==>
              1 <= CanonicalLog(stage, cycle, verdict)[i].cycle < cycle
    decreases Rank(stage)
  {
    var prior := CanonicalLog(Before(stage), cycle, verdict);
    if i < |prior| {
      CanonicalPast(Before(stage), cycle, verdict, i);
    } else if i > |prior| {
      FailedCyclesPast(cycle - 1, i - |prior| - 1);
    }
  }

  lemma {:induction false} EventsCome(log: seq<Transition>, e: Event)
    requires e in EventsOf(log)
    ensures e == Event(Created, 1) || exists i :: 0 <= i < |log| && EventOf(log[i]) == e
  {
    if log != [] {
      var shorter := log[..|log| - 1];
      if e == EventOf(log[|log| - 1]) {
      } else {
        EventsCome(shorter, e);
        if i :| 0 <= i < |shorter| && EventOf(shorter[i]) == e {
          assert log[i] == shorter[i];
        }
      }
    }
  }

  function Verdict(p: Process): Reason {
    if p.verification.Some? && p.verification.value.outcome == NotDelivered
    then NotDeliveredThreshold else DeliveredThreshold
  }

  predicate LogInv(p: Process) {
    && p.cycle >= 1
    && (Rank(p.stage) < Rank(Deliberation) ==> p.cycle == 1)
    && p.log == CanonicalLog(p.stage, p.cycle, Verdict(p))
    && p.events == EventsOf(p.log)
  }

  /** No uniqueness constraint stands in the way of an edge out of the current stage. */
  lemma AdvanceSucceeds(p: Process, t: Transition)
    requires LogInv(p) && SupportedPath(t) && !Past(p.stage, p.cycle, t)
    ensures !Taken(p.log, t)
    ensures EventOf(t) !in p.events
    ensures var longer := p.log + [t];
      Advance(p, t) == Some(p.(stage := t.to, log := longer, events := EventsOf(longer)))
  {
    forall i | 0 <= i < |p.log| ensures !SameKey(p.log[i], t) && EventOf(p.log[i]) != EventOf(t) {
      CanonicalPast(p.stage, p.cycle, Verdict(p), i);
    }
    if EventOf(t) in p.events {
      EventsCome(p.log, EventOf(t));
    }
    assert (p.log + [t])[..|p.log|] == p.log;
  }

  lemma LogFrame(p: Process, q: Process)
    requires LogInv(p) && q.stage == p.stage && q.cycle == p.cycle && q.log == p.log && q.events == p.events
    requires Verdict(q) == Verdict(p)
    ensures LogInv(q)
  {
  }

  lemma EdgeIsLegal(to: Stage, cycle: nat, verdict: Reason)
    requires to != Confirmation && (to == Archived ==> verdict in {DeliveredThreshold, NotDeliveredThreshold})
    ensures SupportedPath(EdgeInto(to, cycle, verdict)) && !Past(Before(to), cycle, EdgeInto(to, cycle, verdict))
  {
  }

  lemma CanonicalStep(to: Stage, cycle: nat, v: Reason, w: Reason)
    requires cycle >= 1 && to != Confirmation && (to == Archived ==> v == w) && (to == Deliberation ==> cycle == 1)
    ensures CanonicalLog(to, cycle, v) == CanonicalLog(Before(to), cycle, v) + [EdgeInto(to, cycle, w)]
  {
  }

  /** The edge forward is always inserted, with its event, and the new logs are canonical again. */
  lemma AdvanceForward(p: Process, to: Stage)
    requires LogInv(p) && to !in {Confirmation, Archived} && p.stage == Before(to)
    ensures var t := EdgeInto(to, p.cycle, DeliveredThreshold);
      var q := p.(stage := to, log := p.log + [t], events := EventsOf(p.log + [t]));
      Advance(p, t) == Some(q) && LogInv(q)
  {
    EdgeIsLegal(to, p.cycle, DeliveredThreshold);
    CanonicalStep(to, p.cycle, Verdict(p), DeliveredThreshold);
    hide CanonicalLog, EventsOf, EdgeInto, SupportedPath, Past, Advance;
    AdvanceSucceeds(p, EdgeInto(to, p.cycle, DeliveredThreshold));
  }

  // ---- What every reachable process satisfies -----------------------------

  /** A ballot has been prepared at least once. */
  predicate Balloted(p: Process) {
    Rank(p.stage) >= Rank(BallotPreparation) || p.cycle > 1
  }

  predicate ThresholdInv(p: Process) {
    && |p.confirmers| <= THRESHOLD && (p.stage == Confirmation <==> |p.confirmers| < THRESHOLD)
    && |p.proposals| <= THRESHOLD && (Rank(p.stage) < Rank(Deliberation) <==> |p.proposals| < THRESHOLD)
    && (p.stage == Confirmation ==> p.proposals == map[])
    && (Balloted(p) <==> |p.contributors| >= THRESHOLD)
  }

  predicate BallotInv(p: Process) {
    && (forall id <- p.proposals ::
          if Balloted(p) then p.proposals[id].state in {Withdrawn, Frozen} else p.proposals[id].state != Frozen)
    && (if Balloted(p)
        then p.opensAt.Some? && p.closesAt == Some(p.opensAt.value + VOTING_WINDOW)
        else p.opensAt.None? && p.closesAt.None?)
  }

  /** Seats of the current cycle exist from the snapshot on, tokens from the opening on. */
  predicate SeatInv(p: Process) {
    && p.consumed <= p.tokens <= p.eligible
    && (forall s <- p.eligible :: 1 <= s.cycle <= p.cycle
          && (s.cycle == p.cycle ==> Rank(p.stage) >= Rank(BallotPreparation))
          && (s in p.tokens <==> s.cycle < p.cycle || Rank(p.stage) >= Rank(Voting)))
  }

  function ConsumedIn(consumed: set<Seat>, cycle: nat): set<Seat> {
    set s | s in consumed && s.cycle == cycle
  }

  ghost predicate VoteInv(p: Process) {
    && (forall v <- p.votes ::
          && v.proposal in p.proposals && p.proposals[v.proposal].state == Frozen
          && v.cycle <= p.cycle && (v.cycle == p.cycle ==> Rank(p.stage) >= Rank(Voting)))
    && (forall c: nat {:trigger VotesIn(p.votes, c)} :: |VotesIn(p.votes, c)| == |ConsumedIn(p.consumed, c)|)
    && (forall c: nat {:trigger VotesIn(p.votes, c)} :: c < p.cycle ==> |VotesIn(p.votes, c)| < THRESHOLD)
  }

  ghost predicate OutcomeInv(p: Process) {
    && (p.mandate.Some? <==> Rank(p.stage) >= Rank(Mandated))
    && (p.mandate.Some? ==>
          && IsOutcome(VotesIn(p.votes, p.cycle), p.mandate.value)
          && p.mandate.value.totalVotes >= THRESHOLD
          && (p.mandate.value.proposal.None? <==> p.stage == Mandated))
  }

  predicate VerificationInv(p: Process) {
    var yes, no := |Attesters(p.attested, Delivered)|, |Attesters(p.attested, NotDelivered)|;
    && (Rank(p.stage) < Rank(Verifying) ==> p.attested == map[])
    && (p.stage == Verifying ==> yes < THRESHOLD && no < THRESHOLD)
    && (p.verification.Some? <==> p.stage == Archived)
    && (p.verification.Some? ==>
          && p.verification.value.delivered == yes && p.verification.value.notDelivered == no
          && (if p.verification.value.outcome == Delivered
              then yes == THRESHOLD && no < THRESHOLD
              else no == THRESHOLD && yes < THRESHOLD))
  }

  ghost predicate Inv(p: Process) {
    && LogInv(p) && ThresholdInv(p) && BallotInv(p) && SeatInv(p)
    && VoteInv(p) && OutcomeInv(p) && VerificationInv(p)
  }

  // ---- Each action keeps the invariant ------------------------------------

  lemma NewProcessInv()
    ensures Inv(NEW_PROCESS)
  {
    assert Attesters(map[], Delivered) == {} && Attesters(map[], NotDelivered) == {};
    assert forall c: nat :: VotesIn([], c) == [] && ConsumedIn({}, c) == {};
  }

  /** Adding one element to a set adds at most one to its size. */
  lemma SetGrowth<T>(s: set<T>, x: T)
    ensures |s + {x}| == if x in s then |s| else |s| + 1
  {
    if x in s { assert s + {x} == s; }
  }

  lemma MapGrowth<K, V>(m: map<K, V>, k: K, v: V)
    requires k !in m
    ensures |m[k := v]| == |m| + 1
  {
    assert m[k := v].Keys == m.Keys + {k};
    assert |m[k := v].Keys| == |m.Keys| + 1;
  }

  lemma ConfirmParts(p: Process, r: Process)
    requires Inv(p) && p.stage == Confirmation && |r.confirmers| == |p.confirmers| + 1
    requires r.stage == if |r.confirmers| < THRESHOLD then Confirmation else Proposals
    requires r == p.(stage := r.stage, confirmers := r.confirmers, log := r.log, events := r.events)
    ensures ThresholdInv(r) && BallotInv(r) && SeatInv(r) && VoteInv(r) && OutcomeInv(r) && VerificationInv(r)
  {
    hide LogInv;
    VotesStaySound(p, r);
  }

  lemma ConfirmKeeps(p: Process, actor: Actor)
    requires Inv(p)
    ensures Inv(Step(p, Confirm(actor)))
  {
    hide LogInv, ThresholdInv, BallotInv, SeatInv, VoteInv, OutcomeInv, VerificationInv;
    if actor !in p.confirmers && p.stage == Confirmation {
      var q := p.(confirmers := p.confirmers + {actor});
      SetGrowth(p.confirmers, actor);
      LogFrame(p, q);
      if |q.confirmers| >= THRESHOLD {
        LogCycleOne(p);
        AdvanceForward(q, Proposals);
      }
      ConfirmParts(p, Step(p, Confirm(actor)));
    }
  }

  lemma LogCycleOne(p: Process)
    requires LogInv(p) && p.stage in {Confirmation, Proposals}
    ensures p.cycle == 1
  {
  }

  lemma ProposeKeeps(p: Process, id: ProposalId, author: Actor)
    requires Inv(p)
    ensures Inv(Step(p, Propose(id, author)))
  {
    if p.stage == Proposals && Proposed(p, id, author).Ok? {
      var q := p.(proposals := p.proposals[id := Proposal(author, Published)]);
      MapGrowth(p.proposals, id, Proposal(author, Published));
      assert !Balloted(p);
      hide IsOutcome, VotesIn, ConsumedIn, Attesters;
      if |q.proposals| >= THRESHOLD {
        AdvanceForward(q, Deliberation);
      }
    }
  }

  lemma EditKeeps(p: Process, id: ProposalId, a: Action)
    requires Inv(p) && (a == Revise(id) || a == Withdraw(id))
    ensures Inv(Step(p, a))
  {
    var q := Step(p, a);
    if q != p {
      assert q.proposals.Keys == p.proposals.Keys;
      assert |q.proposals| == |q.proposals.Keys|;
    }
  }

  /** Votes already cast stay sound while the stage moves on within a cycle. */
  lemma VotesStaySound(p: Process, r: Process)
    requires VoteInv(p)
    requires r.votes == p.votes && r.consumed == p.consumed && r.cycle == p.cycle
    requires Rank(r.stage) >= Rank(p.stage)
    requires forall id <- p.proposals :: p.proposals[id].state == Frozen ==>
               id in r.proposals && r.proposals[id].state == Frozen
    ensures VoteInv(r)
  {
  }

  lemma ContributeKeeps(p: Process, actor: Actor, proposal: ProposalId, at: Micros, members: set<Actor>)
    requires Inv(p)
    ensures Inv(Step(p, Contribute(actor, proposal, at, members)))
  {
    hide LogInv, BallotInv, SeatInv, VoteInv, OutcomeInv, VerificationInv;
    if p.stage == Deliberation && proposal in p.proposals {
      var q := p.(contributors := p.contributors + {actor});
      SetGrowth(p.contributors, actor);
      ContributeParts(p, q);
      if |q.contributors| >= THRESHOLD {
        PrepareBallotKeeps(q, at, members);
      }
    }
  }

  lemma ContributeParts(p: Process, q: Process)
    requires Inv(p) && q == p.(contributors := q.contributors)
    ensures LogInv(q) && BallotInv(q) && SeatInv(q) && VoteInv(q) && OutcomeInv(q) && VerificationInv(q)
  {
    hide CanonicalLog, EventsOf;
    VotesStaySound(p, q);
  }

  lemma SnapshotKeepsSeats(p: Process, r: Process, members: set<Actor>)
    requires p.cycle >= 1 && SeatInv(p) && p.stage == Deliberation && r.stage == BallotPreparation
    requires r.cycle == p.cycle && r.tokens == p.tokens && r.consumed == p.consumed
    requires r.eligible == p.eligible + (set a | a in members :: Seat(a, p.cycle))
    ensures SeatInv(r)
  {
  }

  lemma FreezeKeepsBallot(p: Process, r: Process, at: Micros)
    requires BallotInv(p) && p.stage == Deliberation && r.stage == BallotPreparation
    requires r.proposals == Freeze(p.proposals)
    requires r.opensAt == Some(at + FREEZE_WINDOW) && r.closesAt == Some(at + FREEZE_WINDOW + VOTING_WINDOW)
    ensures BallotInv(r) && |r.proposals| == |p.proposals|
    ensures forall id <- p.proposals :: p.proposals[id].state == Frozen ==>
              id in r.proposals && r.proposals[id].state == Frozen
  {
    assert r.proposals.Keys == p.proposals.Keys;
    assert |r.proposals| == |r.proposals.Keys|;
  }

  /** The deliberation threshold is met: its edge is inserted and the ballot prepared. */
  lemma PrepareBallotKeeps(p: Process, at: Micros, members: set<Actor>)
    requires p.stage == Deliberation && |p.contributors| >= THRESHOLD
    requires LogInv(p) && BallotInv(p) && SeatInv(p) && VoteInv(p) && OutcomeInv(p) && VerificationInv(p)
    requires |p.confirmers| == |p.proposals| == THRESHOLD
    ensures var r := Advance(p, EdgeInto(BallotPreparation, p.cycle, DeliveredThreshold));
      r.Some? && Inv(Balloting(r.value, at, members))
  {
    hide LogInv, BallotInv, SeatInv, VoteInv, OutcomeInv, VerificationInv;
    AdvanceForward(p, BallotPreparation);
    var q := Advance(p, EdgeInto(BallotPreparation, p.cycle, DeliveredThreshold)).value;
    var r := Balloting(q, at, members);
    LogFrame(q, r);
    SnapshotKeepsSeats(p, r, members);
    FreezeKeepsBallot(p, r, at);
    VotesStaySound(p, r);
    OutcomesStaySound(p, r);
  }

  lemma OutcomesStaySound(p: Process, r: Process)
    requires p.stage == Deliberation && r.stage == BallotPreparation
    requires OutcomeInv(p) && VerificationInv(p)
    requires r.mandate == p.mandate && r.attested == p.attested && r.verification == p.verification
    ensures OutcomeInv(r) && VerificationInv(r)
  {
  }

  lemma OpenParts(p: Process, r: Process)
    requires Inv(p) && p.stage == BallotPreparation && r.stage == Voting
    requires r.tokens == p.tokens + (set s | s in p.eligible && s.cycle == p.cycle)
    requires r == p.(stage := r.stage, tokens := r.tokens, log := r.log, events := r.events)
    ensures ThresholdInv(r) && BallotInv(r) && SeatInv(r) && VoteInv(r) && OutcomeInv(r) && VerificationInv(r)
  {
    hide LogInv;
    VotesStaySound(p, r);
  }

  lemma OpenKeeps(p: Process, now: Millis)
    requires Inv(p)
    ensures Inv(Opened(p, now))
  {
    hide LogInv, ThresholdInv, BallotInv, SeatInv, VoteInv, OutcomeInv, VerificationInv;
    if p.stage == BallotPreparation && Elapsed(p.opensAt, now) {
      AdvanceForward(p, Voting);
      LogFrame(Advance(p, EdgeInto(Voting, p.cycle, DeliveredThreshold)).value, Opened(p, now));
      OpenParts(p, Opened(p, now));
    }
  }

  lemma CastKeeps(p: Process, actor: Actor, proposal: ProposalId)
    requires Inv(p)
    ensures Inv(Step(p, Cast(actor, proposal)))
  {
    var q := Step(p, Cast(actor, proposal));
    if q != p {
      VoteCounts(p, q, Seat(actor, p.cycle), Vote(proposal, p.cycle));
    }
  }

  /** A cast adds one vote and one consumed token to the current cycle, and to no other. */
  lemma VoteCounts(p: Process, q: Process, seat: Seat, vote: Vote)
    requires VoteInv(p) && q == p.(consumed := p.consumed + {seat}, votes := p.votes + [vote])
    requires p.stage == Voting && seat.cycle == vote.cycle == p.cycle && seat !in p.consumed
    requires vote.proposal in p.proposals && p.proposals[vote.proposal].state == Frozen
    ensures VoteInv(q)
  {
    assert q.votes[..|p.votes|] == p.votes;
    forall c: nat
      ensures |VotesIn(q.votes, c)| == |ConsumedIn(q.consumed, c)|
      ensures c < p.cycle ==> VotesIn(q.votes, c) == VotesIn(p.votes, c)
    {
      assert |VotesIn(p.votes, c)| == |ConsumedIn(p.consumed, c)|;
      if c == p.cycle {
        assert ConsumedIn(q.consumed, c) == ConsumedIn(p.consumed, c) + {seat};
      } else {
        assert ConsumedIn(q.consumed, c) == ConsumedIn(p.consumed, c);
      }
    }
  }

  /** Everything but the logs, when a missed quorum starts the next cycle. */
  lemma NextCycleKeeps(p: Process, r: Process)
    requires Inv(p) && p.stage == Voting && |VotesIn(p.votes, p.cycle)| < THRESHOLD
    requires r == p.(stage := Deliberation, cycle := p.cycle + 1, log := r.log, events := r.events)
    ensures ThresholdInv(r) && BallotInv(r) && SeatInv(r) && VoteInv(r) && OutcomeInv(r) && VerificationInv(r)
  {
    forall c: nat | c < r.cycle ensures |VotesIn(r.votes, c)| < THRESHOLD {
    }
  }

  /** Missing the quorum starts the next cycle; its log is the canonical one. */
  lemma QuorumFailureKeeps(p: Process)
    requires Inv(p) && p.stage == Voting && |VotesIn(p.votes, p.cycle)| < THRESHOLD
    ensures var r := Advance(p, Transition(Voting, Deliberation, QuorumNotReached, p.cycle));
      r.Some? && Inv(r.value.(cycle := p.cycle + 1))
  {
    hide ThresholdInv, BallotInv, SeatInv, VoteInv, OutcomeInv, VerificationInv;
    var t := Transition(Voting, Deliberation, QuorumNotReached, p.cycle);
    AdvanceSucceeds(p, t);
    var r := Advance(p, t).value.(cycle := p.cycle + 1);
    NextCycleKeeps(p, r);
    FailedCyclesExtend(p.cycle, Verdict(p));
  }

  lemma FailedCyclesExtend(cycle: nat, verdict: Reason)
    requires cycle >= 1
    ensures CanonicalLog(Voting, cycle, verdict) + [Transition(Voting, Deliberation, QuorumNotReached, cycle)]
         == CanonicalLog(Deliberation, cycle + 1, verdict)
  {
    CanonicalDeliberation(cycle, verdict);
    CanonicalDeliberation(cycle + 1, verdict);
    FailedCyclesStep(cycle);
    var first, second := EdgeInto(BallotPreparation, cycle, verdict), EdgeInto(Voting, cycle, verdict);
    assert first == EdgeInto(BallotPreparation, cycle, DeliveredThreshold);
    assert second == EdgeInto(Voting, cycle, DeliveredThreshold);
    assert EdgeInto(Proposals, cycle, verdict) == EdgeInto(Proposals, cycle + 1, verdict);
    assert EdgeInto(Deliberation, cycle, verdict) == EdgeInto(Deliberation, cycle + 1, verdict);
    assert CanonicalLog(BallotPreparation, cycle, verdict) == CanonicalLog(Deliberation, cycle, verdict) + [first];
    assert CanonicalLog(Voting, cycle, verdict) == CanonicalLog(BallotPreparation, cycle, verdict) + [second];
    hide CanonicalLog, FailedCycles, EdgeInto;
    var start := [EdgeInto(Proposals, cycle, verdict)] + [EdgeInto(Deliberation, cycle, verdict)];
    Regroup(start, FailedCycles(cycle - 1), first, second, Transition(Voting, Deliberation, QuorumNotReached, cycle));
  }

  lemma Regroup(start: seq<Transition>, failed: seq<Transition>, t: Transition, u: Transition, v: Transition)
    ensures start + failed + [t] + [u] + [v] == start + (failed + [t] + [u] + [v])
  {
  }

  /** Everything but the logs, when a mandate is recorded. */
  lemma OutcomeKeeps(p: Process, r: Process, m: Mandate)
    requires Inv(p) && p.stage == Voting && |VotesIn(p.votes, p.cycle)| >= THRESHOLD
    requires IsOutcome(VotesIn(p.votes, p.cycle), m)
    requires r.stage == if m.proposal.None? then Mandated else Acting
    requires r == p.(stage := r.stage, mandate := Some(m), log := r.log, events := r.events)
    ensures ThresholdInv(r) && BallotInv(r) && SeatInv(r) && VoteInv(r) && OutcomeInv(r) && VerificationInv(r)
  {
    VotesStaySound(p, r);
  }

  lemma DecidedKeeps(p: Process, q: Process, m: Mandate)
    requires Inv(p) && p.stage == Voting && |VotesIn(p.votes, p.cycle)| >= THRESHOLD
    requires IsOutcome(VotesIn(p.votes, p.cycle), m)
    requires LogInv(q) && q == p.(stage := Mandated, log := q.log, events := q.events)
    ensures Inv(Mandating(q, m))
  {
    assert q.mandate.None?;
    assert EdgeInto(Acting, p.cycle, DeliveredThreshold) == Transition(Mandated, Acting, MandateDecided, p.cycle);
    hide LogInv, ThresholdInv, BallotInv, SeatInv, VoteInv, OutcomeInv, VerificationInv;
    hide CanonicalLog, EventsOf, IsOutcome, VotesIn, EdgeInto, Advance;
    var decided := q.(mandate := Some(m));
    LogFrame(q, decided);
    if m.proposal.None? {
      OutcomeKeeps(p, decided, m);
    } else {
      AdvanceForward(decided, Acting);
      OutcomeKeeps(p, Advance(decided, EdgeInto(Acting, p.cycle, DeliveredThreshold)).value, m);
    }
  }

  /** With a quorum the mandate is decided, and a single winner moves straight on to action. */
  lemma MandateKeeps(p: Process, now: Millis)
    requires Inv(p) && p.stage == Voting && |VotesIn(p.votes, p.cycle)| >= THRESHOLD
    ensures var r := Advance(p, EdgeInto(Mandated, p.cycle, DeliveredThreshold));
      r.Some? && Inv(Mandating(r.value, Decide(VotesIn(p.votes, p.cycle), now)))
  {
    hide LogInv, ThresholdInv, BallotInv, SeatInv, VoteInv, OutcomeInv, VerificationInv;
    hide CanonicalLog, EventsOf, IsOutcome, Decide, VotesIn, Mandating;
    DecideIsOutcome(VotesIn(p.votes, p.cycle), now);
    AdvanceForward(p, Mandated);
    var q := Advance(p, EdgeInto(Mandated, p.cycle, DeliveredThreshold)).value;
    DecidedKeeps(p, q, Decide(VotesIn(p.votes, p.cycle), now));
  }

  lemma CloseKeeps(p: Process, now: Millis)
    requires Inv(p)
    ensures Inv(Closed(p, now))
  {
    hide LogInv, ThresholdInv, BallotInv, SeatInv, VoteInv, OutcomeInv, VerificationInv;
    if p.stage == Voting && Elapsed(p.closesAt, now) {
      if |VotesIn(p.votes, p.cycle)| < THRESHOLD {
        QuorumFailureKeeps(p);
      } else {
        MandateKeeps(p, now);
      }
    }
  }

  lemma MarkReadyParts(p: Process, r: Process)
    requires Inv(p) && p.stage == Acting && r.stage == Verifying
    requires r == p.(stage := r.stage, log := r.log, events := r.events)
    ensures ThresholdInv(r) && BallotInv(r) && SeatInv(r) && VoteInv(r) && OutcomeInv(r) && VerificationInv(r)
  {
    hide LogInv;
    VotesStaySound(p, r);
    assert Attesters(r.attested, Delivered) == {} && Attesters(r.attested, NotDelivered) == {};
  }

  lemma MarkReadyKeeps(p: Process)
    requires Inv(p)
    ensures Inv(MarkedReady(p))
  {
    hide LogInv, ThresholdInv, BallotInv, SeatInv, VoteInv, OutcomeInv, VerificationInv;
    if p.stage == Acting {
      AdvanceForward(p, Verifying);
      MarkReadyParts(p, MarkedReady(p));
    }
  }

  lemma AttestersGrow(attested: map<Actor, Delivery>, actor: Actor, outcome: Delivery, o: Delivery)
    requires actor !in attested
    ensures |Attesters(attested[actor := outcome], o)| == |Attesters(attested, o)| + if o == outcome then 1 else 0
  {
    var after := attested[actor := outcome];
    if o == outcome {
      assert Attesters(after, o) == Attesters(attested, o) + {actor};
    } else {
      assert Attesters(after, o) == Attesters(attested, o);
    }
  }

  /** What a first attestation of an actor does while verifying. */
  lemma AttestStep(p: Process, actor: Actor, outcome: Delivery)
    requires p.stage == Verifying && actor !in p.attested
    ensures var q := p.(attested := p.attested[actor := outcome]);
      var yes, no := |Attesters(q.attested, Delivered)|, |Attesters(q.attested, NotDelivered)|;
      Step(p, Attest(actor, outcome)) ==
        if yes >= THRESHOLD then Archiving(q, Verification(Delivered, yes, no), DeliveredThreshold)
        else if no >= THRESHOLD then Archiving(q, Verification(NotDelivered, yes, no), NotDeliveredThreshold)
        else q
  {
    hide Archiving, Attesters;
  }

  /** One more attestation completes one outcome at most. */
  lemma AttestTotals(p: Process, actor: Actor, outcome: Delivery)
    requires VerificationInv(p) && p.stage == Verifying && actor !in p.attested
    ensures var attested := p.attested[actor := outcome];
      var yes, no := |Attesters(attested, Delivered)|, |Attesters(attested, NotDelivered)|;
      yes <= THRESHOLD && no <= THRESHOLD && (yes < THRESHOLD || no < THRESHOLD)
  {
    AttestersGrow(p.attested, actor, outcome, Delivered);
    AttestersGrow(p.attested, actor, outcome, NotDelivered);
    hide Attesters;
  }

  lemma AttestKeeps(p: Process, actor: Actor, outcome: Delivery)
    requires Inv(p)
    ensures Inv(Step(p, Attest(actor, outcome)))
  {
    if p.stage == Verifying && actor !in p.attested {
      AttestStep(p, actor, outcome);
      AttestTotals(p, actor, outcome);
      hide *;
      var q := p.(attested := p.attested[actor := outcome]);
      var yes, no := |Attesters(q.attested, Delivered)|, |Attesters(q.attested, NotDelivered)|;
      if yes >= THRESHOLD {
        ArchiveKeeps(p, q, Verification(Delivered, yes, no), DeliveredThreshold);
      } else if no >= THRESHOLD {
        ArchiveKeeps(p, q, Verification(NotDelivered, yes, no), NotDeliveredThreshold);
      } else {
        StillVerifyingKeeps(p, q);
      }
    }
  }

  lemma StillVerifyingKeeps(p: Process, q: Process)
    requires Inv(p) && p.stage == Verifying && q == p.(attested := q.attested)
    requires |Attesters(q.attested, Delivered)| < THRESHOLD && |Attesters(q.attested, NotDelivered)| < THRESHOLD
    ensures Inv(q)
  {
    VotesStaySound(p, q);
  }

  /** Everything but the logs, when the process is archived. */
  lemma VerdictKeeps(p: Process, r: Process, v: Verification)
    requires Inv(p) && p.stage == Verifying
    requires r == p.(stage := Archived, attested := r.attested, verification := Some(v),
                     log := r.log, events := r.events)
    requires v.delivered == |Attesters(r.attested, Delivered)|
    requires v.notDelivered == |Attesters(r.attested, NotDelivered)|
    requires if v.outcome == Delivered then v.delivered == THRESHOLD > v.notDelivered
             else v.notDelivered == THRESHOLD > v.delivered
    ensures ThresholdInv(r) && BallotInv(r) && SeatInv(r) && VoteInv(r) && OutcomeInv(r) && VerificationInv(r)
  {
    VotesStaySound(p, r);
    hide IsOutcome, VotesIn, ConsumedIn, Attesters;
  }

  lemma ArchiveKeeps(p: Process, q: Process, v: Verification, reason: Reason)
    requires Inv(p) && p.stage == Verifying && q == p.(attested := q.attested)
    requires reason == if v.outcome == Delivered then DeliveredThreshold else NotDeliveredThreshold
    requires v.delivered == |Attesters(q.attested, Delivered)|
    requires v.notDelivered == |Attesters(q.attested, NotDelivered)|
    requires if v.outcome == Delivered then v.delivered == THRESHOLD > v.notDelivered
             else v.notDelivered == THRESHOLD > v.delivered
    ensures Inv(Archiving(q, v, reason))
  {
    var r := Archiving(q, v, reason);
    ArchiveLogs(p, q, v, reason);
    assert p.verification.None? by { assert VerificationInv(p); }
    hide LogInv, ThresholdInv, BallotInv, SeatInv, VoteInv, OutcomeInv, VerificationInv, Attesters, Archiving;
    VerdictKeeps(p, r, v);
  }

  /** Archiving is always possible, and its log is the canonical one. */
  lemma ArchiveLogs(p: Process, q: Process, v: Verification, reason: Reason)
    requires LogInv(p) && p.verification.None? && p.stage == Verifying && q == p.(attested := q.attested)
    requires reason == if v.outcome == Delivered then DeliveredThreshold else NotDeliveredThreshold
    ensures var r := Archiving(q, v, reason);
      && LogInv(r)
      && r == p.(stage := Archived, attested := q.attested, verification := Some(v), log := r.log, events := r.events)
  {
    EdgeIsLegal(Archived, p.cycle, reason);
    CanonicalStep(Archived, p.cycle, reason, reason);
    CanonicalVerdict(Verifying, p.cycle, Verdict(p), reason);
    LogFrame(p, q);
    assert EdgeInto(Archived, p.cycle, reason) == Transition(Verifying, Archived, reason, 1);
    hide CanonicalLog, EventsOf, EdgeInto, SupportedPath, Past, Advance;
    AdvanceSucceeds(q, Transition(Verifying, Archived, reason, 1));
  }

  /** Before archiving, the log does not depend on the verdict. */
  lemma {:induction false} CanonicalVerdict(stage: Stage, cycle: nat, v: Reason, w: Reason)
    requires cycle >= 1 && stage != Archived
    ensures CanonicalLog(stage, cycle, v) == CanonicalLog(stage, cycle, w)
    decreases Rank(stage)
  {
    if stage != Confirmation {
      CanonicalVerdict(Before(stage), cycle, v, w);
    }
  }

  lemma StepKeepsInv(p: Process, a: Action)
    requires Inv(p)
    ensures Inv(Step(p, a))
  {
    match a
    case Confirm(actor) => ConfirmKeeps(p, actor);
    case Propose(id, author) => ProposeKeeps(p, id, author);
    case Revise(id) => EditKeeps(p, id, a);
    case Withdraw(id) => EditKeeps(p, id, a);
    case Contribute(actor, proposal, at, members) => ContributeKeeps(p, actor, proposal, at, members);
    case OpenVoting(now) => OpenKeeps(p, now);
    case CloseVoting(now) => CloseKeeps(p, now);
    case Cast(actor, proposal) => CastKeeps(p, actor, proposal);
    case MarkReady => MarkReadyKeeps(p);
    case Attest(actor, outcome) => AttestKeeps(p, actor, outcome);
  }

  /** Every run of every length from a new process. */
  lemma {:induction false} ReachableInv(actions: seq<Action>)
    ensures Inv(Run(NEW_PROCESS, actions))
  {
    if actions == [] {
      NewProcessInv();
    } else {
      ReachableInv(actions[..|actions| - 1]);
      StepKeepsInv(Run(NEW_PROCESS, actions[..|actions| - 1]), actions[|actions| - 1]);
    }
  }

  // ---- Consequences for whole runs ----------------------------------------

  /** Following the log from the first stage: the stage it leads to, if its edges join up. */
  function Replay(log: seq<Transition>): Option<Stage> {
    if log == [] then
      Some(Confirmation)
    else
      var last := log[|log| - 1];
      if Replay(log[..|log| - 1]) == Some(last.from) then Some(last.to) else None
  }

  function QuorumFailures(log: seq<Transition>): nat {
    if log == [] then
      0
    else
      QuorumFailures(log[..|log| - 1]) + if log[|log| - 1].reason == QuorumNotReached then 1 else 0
  }

  lemma ReplayAppend(log: seq<Transition>, t: Transition)
    ensures Replay(log + [t]) == if Replay(log) == Some(t.from) then Some(t.to) else None
    ensures QuorumFailures(log + [t]) == QuorumFailures(log) + if t.reason == QuorumNotReached then 1 else 0
  {
    assert (log + [t])[..|log|] == log;
  }

  lemma ReplayStart()
    ensures Replay([]) == Some(Confirmation) && QuorumFailures([]) == 0
  {
  }

  lemma FailedCyclesStep(n: nat)
    requires n > 0
    ensures FailedCycles(n) == FailedCycles(n - 1) + [EdgeInto(BallotPreparation, n, DeliveredThreshold)]
      + [EdgeInto(Voting, n, DeliveredThreshold)] + [Transition(Voting, Deliberation, QuorumNotReached, n)]
  {
  }

  lemma {:induction false} ReplayFailedCycles(log: seq<Transition>, n: nat)
    requires Replay(log) == Some(Deliberation)
    ensures Replay(log + FailedCycles(n)) == Some(Deliberation)
    ensures QuorumFailures(log + FailedCycles(n)) == QuorumFailures(log) + n
    ensures |FailedCycles(n)| == 3 * n
  {
    if n == 0 {
      assert log + FailedCycles(0) == log;
    } else {
      FailedCyclesStep(n);
      hide FailedCycles, Replay, QuorumFailures;
      ReplayFailedCycles(log, n - 1);
      var base := log + FailedCycles(n - 1);
      var d, b := EdgeInto(BallotPreparation, n, DeliveredThreshold), EdgeInto(Voting, n, DeliveredThreshold);
      var v := Transition(Voting, Deliberation, QuorumNotReached, n);
      ReplayAppend(base, d);
      ReplayAppend(base + [d], b);
      ReplayAppend(base + [d] + [b], v);
      assert log + FailedCycles(n) == base + [d] + [b] + [v];
    }
  }

  lemma CanonicalDeliberation(cycle: nat, verdict: Reason)
    requires cycle >= 1
    ensures CanonicalLog(Deliberation, cycle, verdict)
         == [EdgeInto(Proposals, cycle, verdict)] + [EdgeInto(Deliberation, cycle, verdict)] + FailedCycles(cycle - 1)
  {
    assert CanonicalLog(Confirmation, cycle, verdict) == [];
    assert CanonicalLog(Proposals, cycle, verdict) == [EdgeInto(Proposals, cycle, verdict)];
  }

  lemma ReplayToDeliberation(cycle: nat, verdict: Reason)
    requires cycle >= 1
    ensures var log := CanonicalLog(Deliberation, cycle, verdict);
      && Replay(log) == Some(Deliberation)
      && QuorumFailures(log) == cycle - 1
      && |log| == Rank(Deliberation) + 3 * (cycle - 1)
  {
    hide CanonicalLog, Replay, QuorumFailures, FailedCycles;
    var a, b := EdgeInto(Proposals, cycle, verdict), EdgeInto(Deliberation, cycle, verdict);
    CanonicalDeliberation(cycle, verdict);
    ReplayStart();
    ReplayAppend([], a);
    assert [] + [a] == [a];
    ReplayAppend([a], b);
    ReplayFailedCycles([a] + [b], cycle - 1);
  }

  lemma CanonicalStart(cycle: nat, verdict: Reason)
    requires cycle >= 1
    ensures CanonicalLog(Confirmation, cycle, verdict) == []
  {
  }

  lemma {:induction false} ReplayCanonical(stage: Stage, cycle: nat, verdict: Reason)
    requires cycle >= 1 && (Rank(stage) < Rank(Deliberation) ==> cycle == 1) && verdict != QuorumNotReached
    ensures var log := CanonicalLog(stage, cycle, verdict);
      && Replay(log) == Some(stage)
      && QuorumFailures(log) == cycle - 1
      && |log| == Rank(stage) + 3 * (cycle - 1)
    decreases Rank(stage)
  {
    hide CanonicalLog, Replay, QuorumFailures;
    if stage == Deliberation {
      ReplayToDeliberation(cycle, verdict);
    } else if stage == Confirmation {
      CanonicalStart(cycle, verdict);
      ReplayStart();
    } else {
      CanonicalStep(stage, cycle, verdict, verdict);
      ReplayCanonical(Before(stage), cycle, verdict);
      ReplayAppend(CanonicalLog(Before(stage), cycle, verdict), EdgeInto(stage, cycle, verdict));
    }
  }

  /** On every run the log folds to the stage, counts the cycles, has the exact length, and repeats no key. */
  lemma LogExplainsProcess(actions: seq<Action>)
    ensures var p := Run(NEW_PROCESS, actions);
      && Replay(p.log) == Some(p.stage)
      && p.cycle == 1 + QuorumFailures(p.log)
      && |p.log| == Rank(p.stage) + 3 * (p.cycle - 1)
      && |p.events| == |p.log| + 1
      && (forall i :: 0 <= i < |p.log| ==>
            && SupportedPath(p.log[i])
            && p.events[i + 1] == Event(if p.log[i].reason == QuorumNotReached then ReturnedAfterQuorumFailure
                                        else MovedTo(p.log[i].to), p.log[i].cycle))
      && p.events[0] == Event(Created, 1)
  {
    ReachableInv(actions);
    var p := Run(NEW_PROCESS, actions);
    ReplayCanonical(p.stage, p.cycle, Verdict(p));
    EventsPointwise(p.log);
    forall i | 0 <= i < |p.log| ensures SupportedPath(p.log[i]) {
      CanonicalPast(p.stage, p.cycle, Verdict(p), i);
    }
  }

  lemma {:induction false} EventsPointwise(log: seq<Transition>)
    ensures var events := EventsOf(log);
      && |events| == |log| + 1 && events[0] == Event(Created, 1)
      && forall i :: 0 <= i < |log| ==> events[i + 1] == EventOf(log[i])
  {
    if log != [] { EventsPointwise(log[..|log| - 1]); }
  }

  /** The cycle written on an edge out of `stage`: the ballot edges carry the current one. */
  function CycleOn(stage: Stage, cycle: nat): nat {
    if stage in {Deliberation, BallotPreparation, Voting, Mandated} then cycle else 1
  }

  /** No uniqueness constraint ever rejects a legal edge, nor its event, in any reachable process. */
  lemma ConstraintsNeverReject(actions: seq<Action>, t: Transition)
    requires var p := Run(NEW_PROCESS, actions);
      SupportedPath(t) && t.from == p.stage && t.cycle == CycleOn(p.stage, p.cycle)
    ensures var p := Run(NEW_PROCESS, actions);
      && !Taken(p.log, t) && EventOf(t) !in p.events
      && Advance(p, t) == Some(p.(stage := t.to, log := p.log + [t], events := p.events + [EventOf(t)]))
  {
    ReachableInv(actions);
    AdvanceSucceeds(Run(NEW_PROCESS, actions), t);
  }

  lemma {:induction false} KeysDistinct(actions: seq<Action>, i: nat, j: nat)
    requires i < j < |Run(NEW_PROCESS, actions).log|
    ensures !SameKey(Run(NEW_PROCESS, actions).log[i], Run(NEW_PROCESS, actions).log[j])
  {
    var p := Run(NEW_PROCESS, actions);
    ReachableInv(actions);
    CanonicalKeysDistinct(p.stage, p.cycle, Verdict(p), i, j);
  }

  lemma {:induction false} FailedKeysDistinct(n: nat, i: nat, j: nat)
    requires i < j < |FailedCycles(n)|
    ensures !SameKey(FailedCycles(n)[i], FailedCycles(n)[j])
  {
    var m := |FailedCycles(n)| - 3;
    if j < m {
      FailedKeysDistinct(n - 1, i, j);
    } else if i < m {
      FailedCyclesPast(n - 1, i);
    }
  }

  lemma {:induction false} CanonicalKeysDistinct(stage: Stage, cycle: nat, verdict: Reason, i: nat, j: nat)
    requires cycle >= 1 && verdict in {DeliveredThreshold, NotDeliveredThreshold}
    requires i < j < |CanonicalLog(stage, cycle, verdict)|
    ensures !SameKey(CanonicalLog(stage, cycle, verdict)[i], CanonicalLog(stage, cycle, verdict)[j])
    decreases Rank(stage)
  {
    var prior := CanonicalLog(Before(stage), cycle, verdict);
    if j < |prior| {
      CanonicalKeysDistinct(Before(stage), cycle, verdict, i, j);
    } else if i < |prior| {
      CanonicalPast(Before(stage), cycle, verdict, i);
      if j > |prior| {
        FailedCyclesPast(cycle - 1, j - |prior| - 1);
      }
    } else if i > |prior| {
      FailedKeysDistinct(cycle - 1, i - |prior| - 1, j - |prior| - 1);
    } else {
      FailedCyclesPast(cycle - 1, j - |prior| - 1);
    }
  }

  /** Archived processes, and mandates left without a winner, never move again. */
  lemma RestingStages(p: Process, a: Action)
    requires Inv(p) && p.stage in {Archived, Mandated}
    ensures Step(p, a) == p
  {
    hide LogInv, SeatInv, VoteInv, VerificationInv, Advance, Decide, IsOutcome;
  }

  /** A decided mandate, the votes it counts, and a verification are never changed by any action. */
  lemma DecisionsAreFinal(p: Process, a: Action)
    requires Inv(p)
    ensures var q := Step(p, a);
      && (p.mandate.Some? ==> q.mandate == p.mandate && q.votes == p.votes && q.cycle == p.cycle)
      && (p.verification.Some? ==> q.verification == p.verification)
  {
    hide LogInv, SeatInv, VoteInv, ThresholdInv, BallotInv, Decide, IsOutcome, Taken, AddEvent, Freeze, VotesIn;
  }

  lemma AdvanceGrows(p: Process, t: Transition)
    ensures Advance(p, t).Some? ==>
      var q := Advance(p, t).value;
      p.log <= q.log && p.events <= q.events && q == p.(stage := t.to, log := q.log, events := q.events)
  {
  }

  ghost predicate NotBefore(p: Process, q: Process) {
    && p.log <= q.log && p.events <= q.events && p.consumed <= q.consumed && p.votes <= q.votes
    && (p.cycle < q.cycle || (p.cycle == q.cycle && Rank(p.stage) <= Rank(q.stage)))
  }

  /** Logs, votes and consumed tokens only grow, and (cycle, stage) never moves back. */
  lemma ActionsOnlyAdd(p: Process, a: Action)
    ensures NotBefore(p, Step(p, a))
    ensures a.Propose? || a.Revise? || a.Withdraw? || a.Contribute? || Step(p, a).proposals == p.proposals
  {
    hide Decide, Advance, VotesIn, Freeze, Attested, Closed;
    match a
    case Confirm(actor) =>
      AdvanceGrows(p.(confirmers := p.confirmers + {actor}), EdgeInto(Proposals, 1, DeliveredThreshold));
    case Propose(id, author) =>
      AdvanceGrows(p.(proposals := p.proposals[id := Proposal(author, Published)]),
                   EdgeInto(Deliberation, 1, DeliveredThreshold));
    case Contribute(actor, _, _, _) =>
      AdvanceGrows(p.(contributors := p.contributors + {actor}),
                   EdgeInto(BallotPreparation, p.cycle, DeliveredThreshold));
    case OpenVoting(_) =>
      AdvanceGrows(p, EdgeInto(Voting, p.cycle, DeliveredThreshold));
    case CloseVoting(now) =>
      CloseOnlyAdds(p, now);
    case MarkReady =>
      AdvanceGrows(p, EdgeInto(Verifying, 1, DeliveredThreshold));
    case Attest(actor, outcome) =>
      AttestOnlyAdds(p, actor, outcome);
    case _ =>
  }

  lemma AttestOnlyAdds(p: Process, actor: Actor, outcome: Delivery)
    ensures NotBefore(p, Step(p, Attest(actor, outcome)))
    ensures Step(p, Attest(actor, outcome)).proposals == p.proposals
  {
    hide Advance, Attesters;
    var q := p.(attested := p.attested[actor := outcome]);
    AdvanceGrows(q, EdgeInto(Archived, 1, DeliveredThreshold));
    AdvanceGrows(q, EdgeInto(Archived, 1, NotDeliveredThreshold));
  }

  lemma CloseOnlyAdds(p: Process, now: Millis)
    ensures NotBefore(p, Closed(p, now)) && Closed(p, now).proposals == p.proposals
  {
    hide Decide, Advance, VotesIn;
    AdvanceGrows(p, Transition(Voting, Deliberation, QuorumNotReached, p.cycle));
    AdvanceGrows(p, Transition(Voting, Mandated, VotingWindowClosed, p.cycle));
    if p.stage == Voting && |VotesIn(p.votes, p.cycle)| >= THRESHOLD {
      var r := Advance(p, Transition(Voting, Mandated, VotingWindowClosed, p.cycle));
      if r.Some? {
        var m := Decide(VotesIn(p.votes, p.cycle), now);
        var q := if r.value.mandate.Some? then r.value else r.value.(mandate := Some(m));
        AdvanceGrows(q, Transition(Mandated, Acting, MandateDecided, r.value.cycle));
      }
    }
  }

  /** Once proposals are on a ballot, no action changes any of them again. */
  lemma BallotIsFixed(p: Process, a: Action)
    requires Inv(p) && Balloted(p)
    ensures Step(p, a).proposals == p.proposals
  {
    assert Rank(p.stage) >= Rank(Deliberation);
    ActionsOnlyAdd(p, a);
    hide LogInv, SeatInv, VoteInv, OutcomeInv, VerificationInv, ThresholdInv;
    assert Freeze(p.proposals) == p.proposals;
    if a.Contribute? {
      var q := p.(contributors := p.contributors + {a.actor});
      var t := EdgeInto(BallotPreparation, p.cycle, DeliveredThreshold);
      AdvanceGrows(q, t);
      hide Advance;
    }
  }

  ghost predicate SameDecisions(p: Process, q: Process) {
    && (p.mandate.Some? ==> q.mandate == p.mandate && VotesIn(q.votes, q.cycle) == VotesIn(p.votes, p.cycle))
    && (p.verification.Some? ==> q.verification == p.verification)
    && (Balloted(p) ==> q.proposals == p.proposals && Balloted(q))
  }

  lemma StepKeepsDecisions(p: Process, q: Process, a: Action)
    requires Inv(q) && SameDecisions(p, q)
    ensures SameDecisions(p, Step(q, a))
  {
    assert q.cycle >= 1;
    hide Inv, Step;
    DecisionsAreFinal(q, a);
    ActionsOnlyAdd(q, a);
    if Balloted(p) { BallotIsFixed(q, a); }
  }

  /** Over any continuation of any run: mandate, counted votes, verification and ballot stay as they were. */
  lemma {:induction false} RunKeepsDecisions(actions: seq<Action>, more: seq<Action>)
    ensures Run(NEW_PROCESS, actions + more) == Run(Run(NEW_PROCESS, actions), more)
    ensures SameDecisions(Run(NEW_PROCESS, actions), Run(NEW_PROCESS, actions + more))
  {
    hide Inv, Step, SameDecisions;
    if more == [] {
      assert actions + more == actions;
      SameDecisionsReflexive(Run(NEW_PROCESS, actions));
    } else {
      var n := |more| - 1;
      RunKeepsDecisions(actions, more[..n]);
      assert (actions + more)[..|actions| + n] == actions + more[..n];
      ReachableInv(actions + more[..n]);
      StepKeepsDecisions(Run(NEW_PROCESS, actions), Run(NEW_PROCESS, actions + more[..n]), more[n]);
    }
  }

  lemma SameDecisionsReflexive(p: Process)
    ensures SameDecisions(p, p)
  {
  }

  /** The mandate of any run is the plurality outcome of the decisive cycle; earlier cycles missed their quorum. */
  lemma MandateIsPlurality(actions: seq<Action>)
    ensures var p := Run(NEW_PROCESS, actions);
      && (p.mandate.Some? <==> p.stage in {Mandated, Acting, Verifying, Archived})
      && (p.mandate.Some? ==>
            && IsOutcome(VotesIn(p.votes, p.cycle), p.mandate.value)
            && p.mandate.value.totalVotes >= THRESHOLD
            && (p.mandate.value.proposal.None? <==> p.stage == Mandated))
      && (forall c: nat {:trigger VotesIn(p.votes, c)} ::
            (c < p.cycle ==> |VotesIn(p.votes, c)| < THRESHOLD)
            && |VotesIn(p.votes, c)| == |ConsumedIn(p.consumed, c)| <= |ConsumedIn(p.eligible, c)|)
      && (forall v <- p.votes :: v.proposal in p.proposals && p.proposals[v.proposal].state == Frozen)
  {
    ReachableInv(actions);
    hide Run, LogInv, ThresholdInv, BallotInv, SeatInv, VerificationInv, ConsumedIn, IsOutcome;
    ConsumedWithinEligible(Run(NEW_PROCESS, actions));
  }

  lemma ConsumedWithinEligible(p: Process)
    requires SeatInv(p)
    ensures forall c: nat :: |ConsumedIn(p.consumed, c)| <= |ConsumedIn(p.eligible, c)|
  {
    forall c: nat ensures |ConsumedIn(p.consumed, c)| <= |ConsumedIn(p.eligible, c)| {
      SubsetSize(ConsumedIn(p.consumed, c), ConsumedIn(p.eligible, c));
    }
  }

  lemma {:induction false} SubsetSize<T>(a: set<T>, b: set<T>)
    requires a <= b
    ensures |a| <= |b|
  {
    if a != {} {
      var x :| x in a;
      SubsetSize(a - {x}, b - {x});
    }
  }

  /** A process is archived exactly when one outcome has its five attestations, and the other has fewer. */
  lemma VerificationIsThreshold(actions: seq<Action>)
    ensures var p := Run(NEW_PROCESS, actions);
      var yes, no := |Attesters(p.attested, Delivered)|, |Attesters(p.attested, NotDelivered)|;
      && (p.stage == Archived <==> yes == THRESHOLD || no == THRESHOLD)
      && (p.verification.Some? <==> p.stage == Archived)
      && (p.verification.Some? ==>
            && p.verification.value.outcome == (if yes == THRESHOLD then Delivered else NotDelivered)
            && yes + no < 2 * THRESHOLD)
  {
    ReachableInv(actions);
    assert Attesters(map[], Delivered) == {} && Attesters(map[], NotDelivered) == {};
    hide LogInv, ThresholdInv, BallotInv, SeatInv, VoteInv, OutcomeInv;
  }

  // ---- Reading a process --------------------------------------------------

  lemma {:induction false} FailureLogged(n: nat, c: nat) returns (i: nat)
    requires 1 <= c <= n
    ensures i < |FailedCycles(n)| && FailedCycles(n)[i] == Transition(Voting, Deliberation, QuorumNotReached, c)
  {
    if c == n {
      i := |FailedCycles(n)| - 1;
    } else {
      i := FailureLogged(n - 1, c);
    }
  }

  lemma {:induction false} CanonicalFailure(stage: Stage, cycle: nat, verdict: Reason, c: nat) returns (i: nat)
    requires 1 <= c < cycle && Rank(stage) >= Rank(Deliberation)
    ensures i < |CanonicalLog(stage, cycle, verdict)|
    ensures CanonicalLog(stage, cycle, verdict)[i] == Transition(Voting, Deliberation, QuorumNotReached, c)
    decreases Rank(stage)
  {
    if stage == Deliberation {
      var k := FailureLogged(cycle - 1, c);
      i := |CanonicalLog(Proposals, cycle, verdict)| + 1 + k;
    } else {
      i := CanonicalFailure(Before(stage), cycle, verdict, c);
    }
  }

  /** The quorum-failure event of a cycle exists exactly for the cycles already abandoned. */
  lemma QuorumFailureRecorded(actions: seq<Action>, c: nat)
    ensures var p := Run(NEW_PROCESS, actions);
      Event(ReturnedAfterQuorumFailure, c) in p.events <==> 1 <= c < p.cycle
  {
    var p := Run(NEW_PROCESS, actions);
    ReachableInv(actions);
    EventsPointwise(p.log);
    if Event(ReturnedAfterQuorumFailure, c) in p.events {
      EventsCome(p.log, Event(ReturnedAfterQuorumFailure, c));
      var i :| 0 <= i < |p.log| && EventOf(p.log[i]) == Event(ReturnedAfterQuorumFailure, c);
      CanonicalPast(p.stage, p.cycle, Verdict(p), i);
    }
    if 1 <= c < p.cycle {
      var i := CanonicalFailure(p.stage, p.cycle, Verdict(p), c);
      assert p.events[i + 1] == Event(ReturnedAfterQuorumFailure, c);
    }
  }

  /**
   * Every read first advances the process lazily, but only by the one step that the stage it found first
   * calls for.
   */
  ghost function Visible(p: Process, now: Millis): Process {
    if p.stage == BallotPreparation then Opened(p, now)
    else if p.stage == Voting then Closed(p, now)
    else p
  }

  /**
   * A read leaves an elapsed ballot open exactly when it was still in preparation: the promise that any
   * request closes an elapsed window holds for all other processes.
   */
  lemma ElapsedBallotLeftOpen(p: Process, now: Millis)
    requires Inv(p)
    ensures var q := Visible(p, now);
      q.stage == Voting && Elapsed(q.closesAt, now) <==> p.stage == BallotPreparation && Elapsed(p.closesAt, now)
  {
    if p.stage == BallotPreparation {
      AdvanceForward(p, Voting);
      hide LogInv, ThresholdInv, SeatInv, VoteInv, OutcomeInv, VerificationInv, Advance;
    } else if p.stage == Voting {
      VotingCloses(p, now);
    }
  }

  lemma VotingCloses(p: Process, now: Millis)
    requires Inv(p) && p.stage == Voting
    ensures Closed(p, now).stage == Voting <==> !Elapsed(p.closesAt, now)
    ensures Closed(p, now).stage == Voting ==> Closed(p, now) == p
  {
    AdvanceForward(p, Mandated);
    AdvanceSucceeds(p, Transition(Voting, Deliberation, QuorumNotReached, p.cycle));
    hide LogInv, ThresholdInv, BallotInv, SeatInv, VoteInv, OutcomeInv, VerificationInv, Decide, Advance;
    if p.stage == Voting && Elapsed(p.closesAt, now) && |VotesIn(p.votes, p.cycle)| >= THRESHOLD {
      var r := Advance(p, Transition(Voting, Mandated, VotingWindowClosed, p.cycle)).value;
      var m := Decide(VotesIn(p.votes, p.cycle), now);
      var q := if r.mandate.Some? then r else r.(mandate := Some(m));
      AdvanceGrows(q, Transition(Mandated, Acting, MandateDecided, r.cycle));
    }
  }

  /**
   * So a vote can be accepted after its window closed, by the request that opens the ballot late: it is for
   * exactly the eligible seats and the proposals on the ballot.
   */
  lemma LateVoteAccepted(p: Process, now: Millis, actor: Actor, proposal: ProposalId)
    requires Inv(p) && p.stage == BallotPreparation && Elapsed(p.closesAt, now)
    ensures Voted(Visible(p, now), actor, proposal).Ok? <==>
      && Seat(actor, p.cycle) in p.eligible
      && proposal in p.proposals && p.proposals[proposal].state == Frozen
  {
    AdvanceForward(p, Voting);
    hide LogInv, ThresholdInv, VoteInv, OutcomeInv, VerificationInv;
  }

  /** A second read after the late opening closes it. */
  lemma SecondReadCloses(p: Process, now: Millis)
    requires Inv(p) && p.stage == BallotPreparation && Elapsed(p.closesAt, now)
    ensures Visible(Visible(p, now), now).stage !in {BallotPreparation, Voting}
  {
    OpenKeeps(p, now);
    ElapsedBallotLeftOpen(p, now);
    ElapsedBallotLeftOpen(Visible(p, now), now);
    var q := Visible(p, now);
    CloseOnlyAdds(q, now);
    hide LogInv, ThresholdInv, BallotInv, SeatInv, VoteInv, OutcomeInv, VerificationInv, Advance;
  }

  // ---- The tally ----------------------------------------------------------

  function SumCounts(rows: seq<TallyRow>): nat {
    if rows == [] then 0 else SumCounts(rows[..|rows| - 1]) + rows[|rows| - 1].count
  }

  function VotesCovered(rows: seq<TallyRow>, votes: seq<Vote>): nat {
    if rows == [] then 0
    else VotesCovered(rows[..|rows| - 1], votes) + CountFor(votes, rows[|rows| - 1].proposal)
  }

  lemma {:induction false} CoveredStep(rows: seq<TallyRow>, votes: seq<Vote>)
    requires votes != []
    requires forall i, j :: 0 <= i < j < |rows| ==> rows[i].proposal != rows[j].proposal
    ensures VotesCovered(rows, votes) == VotesCovered(rows, votes[1..])
      + if exists i :: 0 <= i < |rows| && rows[i].proposal == votes[0].proposal then 1 else 0
  {
    if rows != [] {
      var shorter := rows[..|rows| - 1];
      CoveredStep(shorter, votes);
      if i :| 0 <= i < |rows| && rows[i].proposal == votes[0].proposal {
        if i < |shorter| { assert shorter[i].proposal == votes[0].proposal; }
      }
      if i :| 0 <= i < |shorter| && shorter[i].proposal == votes[0].proposal {
        assert rows[i].proposal == votes[0].proposal;
      }
    }
  }

  lemma {:induction false} CoveredAll(rows: seq<TallyRow>, votes: seq<Vote>)
    requires forall i, j :: 0 <= i < j < |rows| ==> rows[i].proposal != rows[j].proposal
    requires forall v <- votes :: exists i :: 0 <= i < |rows| && rows[i].proposal == v.proposal
    ensures VotesCovered(rows, votes) == |votes|
  {
    if votes == [] {
      CoveredNone(rows);
    } else {
      assert votes[0] in votes && forall v <- votes[1..] :: v in votes;
      CoveredStep(rows, votes);
      CoveredAll(rows, votes[1..]);
    }
  }

  lemma {:induction false} CoveredNone(rows: seq<TallyRow>)
    ensures VotesCovered(rows, []) == 0
  {
    if rows != [] { CoveredNone(rows[..|rows| - 1]); }
  }

  /** The counts of a grouped tally add up to the votes. */
  lemma {:induction false} TallyTotal(rows: seq<TallyRow>, votes: seq<Vote>)
    requires forall row <- rows :: row.count == CountFor(votes, row.proposal)
    ensures SumCounts(rows) == VotesCovered(rows, votes)
  {
    if rows != [] {
      assert rows[|rows| - 1] in rows && forall row <- rows[..|rows| - 1] :: row in rows;
      TallyTotal(rows[..|rows| - 1], votes);
    }
  }

  method SumTally(rows: seq<TallyRow>, ghost votes: seq<Vote>) returns (total: nat)
    requires IsTally(rows, votes)
    ensures total == |votes|
  {
    total := 0;
    for k := 0 to |rows|
      invariant total == SumCounts(rows[..k])
    {
      assert rows[..k + 1][..k] == rows[..k];
      total := total + rows[k].count;
    }
    assert rows[..|rows|] == rows;
    TallyTotal(rows, votes);
    CoveredAll(rows, votes);
  }

  method CountTiedAtTop(rows: seq<TallyRow>) returns (tied: nat)
    requires |rows| > 0
    ensures tied >= 1
    ensures tied == 1 <==> forall i :: 0 < i < |rows| ==> rows[i].count != rows[0].count
  {
    tied := 0;
    for k := 0 to |rows|
      invariant if k == 0 then tied == 0 else tied >= 1
      invariant k >= 1 ==> (tied == 1 <==> forall i :: 0 < i < k ==> rows[i].count != rows[0].count)
    {
      if rows[k].count == rows[0].count {
        tied := tied + 1;
      }
    }
  }

  /** The winner is read off the first row, unless another row ties with it; SQL's order among ties is irrelevant. */
  method DecideFromTally(rows: seq<TallyRow>, total: nat, now: Millis, ghost votes: seq<Vote>) returns (m: Mandate)
    requires IsTally(rows, votes) && total == |votes| > 0
    ensures IsOutcome(votes, m) && m.decidedAt == now
  {
    assert votes[0] in votes;
    var tiedAtTop := CountTiedAtTop(rows);
    m := Mandate(if tiedAtTop == 1 then Some(rows[0].proposal) else None, rows[0].count, total, now);
    FirstRowLeads(rows, votes);
    if tiedAtTop == 1 {
      SoleRow(rows, votes);
    } else {
      var i :| 0 < i < |rows| && rows[i].count == rows[0].count;
      TiedRows(rows, votes, i);
    }
    hide IsTally, SoleWith, IsTop;
  }

  lemma FirstRowLeads(rows: seq<TallyRow>, votes: seq<Vote>)
    requires IsTally(rows, votes) && |rows| > 0
    ensures IsTop(votes, rows[0].count)
  {
    assert rows[0] in rows;
    CountedMeansCast(votes, rows[0].proposal);
    forall v <- votes ensures CountFor(votes, v.proposal) <= rows[0].count {
      var i :| 0 <= i < |rows| && rows[i].proposal == v.proposal;
      assert rows[i] in rows;
    }
  }

  lemma {:induction false} CountedMeansCast(votes: seq<Vote>, proposal: ProposalId)
    requires CountFor(votes, proposal) > 0
    ensures exists v <- votes :: v.proposal == proposal
  {
    if votes[0].proposal == proposal {
      assert votes[0] in votes;
    } else {
      CountedMeansCast(votes[1..], proposal);
      var v :| v in votes[1..] && v.proposal == proposal;
      assert v in votes;
    }
  }

  /** Two rows at the top: nobody leads alone. */
  lemma TiedRows(rows: seq<TallyRow>, votes: seq<Vote>, i: nat)
    requires IsTally(rows, votes) && 0 < i < |rows| && rows[i].count == rows[0].count
    ensures forall w :: !SoleWith(votes, rows[0].count, w)
  {
    assert rows[0] in rows && rows[i] in rows;
    CountedMeansCast(votes, rows[0].proposal);
    CountedMeansCast(votes, rows[i].proposal);
    var v :| v in votes && v.proposal == rows[0].proposal;
    var u :| u in votes && u.proposal == rows[i].proposal;
    assert v.proposal != u.proposal;
  }

  /** One row at the top: every proposal with that many votes is that row's. */
  lemma SoleRow(rows: seq<TallyRow>, votes: seq<Vote>)
    requires IsTally(rows, votes) && |rows| > 0
    requires forall i :: 0 < i < |rows| ==> rows[i].count != rows[0].count
    ensures forall w :: w == rows[0].proposal <==> SoleWith(votes, rows[0].count, w)
  {
    assert rows[0] in rows;
    CountedMeansCast(votes, rows[0].proposal);
    forall v | v in votes && CountFor(votes, v.proposal) == rows[0].count ensures v.proposal == rows[0].proposal {
      var i :| 0 <= i < |rows| && rows[i].proposal == v.proposal;
      assert rows[i] in rows;
    }
  }

  // ---- The repository's transactions --------------------------------------

  /** The rows of one process, changed statement by statement under its row lock. */
  class CivicStore {
    var p: Process

    constructor ()
      ensures p == NEW_PROCESS
    {
      p := NEW_PROCESS;
    }

    /** `INSERT ... ON CONFLICT DO NOTHING`, then the stage update and the event. */
    method MoveStage(t: Transition) returns (moved: bool)
      modifies this
      ensures moved == Advance(old(p), t).Some?
      ensures p == if moved then Advance(old(p), t).value else old(p)
    {
      if exists i :: 0 <= i < |p.log| && SameKey(p.log[i], t) {
        return false;
      }
      p := p.(log := p.log + [t]);
      p := p.(stage := t.to);
      p := p.(events := AddEvent(p.events, EventOf(t)));
      return true;
    }

    method OpenVotingIfBallotPreparationElapsed(now: Millis)
      modifies this
      ensures p == Opened(old(p), now)
    {
      if p.opensAt.None? || p.stage != BallotPreparation {
        return;
      }
      if p.opensAt.value / 1000 > now {
        return;
      }
      var moved := MoveStage(Transition(BallotPreparation, Voting, BallotPrepared, p.cycle));
      if moved {
        p := p.(tokens := p.tokens + (set s | s in p.eligible && s.cycle == p.cycle));
      }
    }

    /** `rows` answers the grouped tally query of the current cycle. */
    method CloseVotingWindowIfElapsed(now: Millis, rows: seq<TallyRow>)
      requires IsTally(rows, VotesIn(p.votes, p.cycle))
      modifies this
      ensures p == Closed(old(p), now)
    {
      if p.closesAt.None? || p.stage != Voting {
        return;
      }
      if p.closesAt.value / 1000 > now {
        return;
      }
      ghost var votes := VotesIn(p.votes, p.cycle);
      var cycle := p.cycle;
      var totalVotes := SumTally(rows, votes);
      if totalVotes < THRESHOLD {
        var returned := MoveStage(Transition(Voting, Deliberation, QuorumNotReached, cycle));
        if returned {
          p := p.(cycle := cycle + 1);
        }
        return;
      }
      var mandate := DecideFromTally(rows, totalVotes, now, votes);
      DecideIsOutcome(votes, now);
      OutcomeUnique(votes, mandate, Decide(votes, now));
      RecordMandate(mandate);
    }

    method RecordMandate(mandate: Mandate)
      modifies this
      ensures p == match Advance(old(p), Transition(Voting, Mandated, VotingWindowClosed, old(p).cycle))
                   case None => old(p)
                   case Some(r) => Mandating(r, mandate)
    {
      var cycle := p.cycle;
      var decided := MoveStage(Transition(Voting, Mandated, VotingWindowClosed, cycle));
      if !decided {
        return;
      }
      if p.mandate.None? {
        p := p.(mandate := Some(mandate));
      }
      if mandate.proposal.None? {
        return;
      }
      var acting := MoveStage(Transition(Mandated, Acting, MandateDecided, cycle));
    }

    /** Both tests look at the stage that was read first. */
    method VisibleProcess(now: Millis, rows: seq<TallyRow>)
      requires IsTally(rows, VotesIn(p.votes, p.cycle))
      modifies this
      ensures p == Visible(old(p), now)
    {
      var initialStage := p.stage;
      if initialStage == BallotPreparation {
        OpenVotingIfBallotPreparationElapsed(now);
      }
      if initialStage == Voting {
        CloseVotingWindowIfElapsed(now, rows);
      }
    }

    method CastCivicVote(actor: Actor, proposal: ProposalId) returns (refusal: Option<Refusal>)
      modifies this
      ensures refusal == match Voted(old(p), actor, proposal) case Ok(_) => None case Err(e) => Some(e)
      ensures p == Step(old(p), Cast(actor, proposal))
    {
      var seat := Seat(actor, p.cycle);
      if seat !in p.tokens || seat in p.consumed {
        return Some(NoToken);
      }
      if p.stage != Voting {
        return Some(StageClosed);
      }
      if proposal !in p.proposals {
        return Some(UnknownProposal);
      }
      if p.proposals[proposal].state != Frozen {
        return Some(NotOnBallot);
      }
      p := p.(consumed := p.consumed + {seat});
      p := p.(votes := p.votes + [Vote(proposal, p.cycle)]);
      return None;
    }
  }
}
