/**
 * The mandate read and its contestation: the flag that a GET derives, the gates a POST passes through,
 * and the guard the database applies once more to the row.
 */
module CivicMandate {
  import opened Prelude
  import opened Timestamps
  import opened CivicProcess

  const CONTESTATION_WINDOW_HOURS := 72
  const CONTESTATION_WINDOW: Millis := CONTESTATION_WINDOW_HOURS * MS_PER_HOUR

  datatype Error =
    | MandateNotDecided
    | WindowClosed
    | SessionNotAuthorized
    | NotParticipant
    | NotEligible
    | AlreadyContested

  /** What the session of a request resolves to: nothing, an account without civic access, or an actor. */
  datatype Caller = NoSession | NoAccess | Participant(actor: Actor)

  /** Instants that JavaScript can write down, with the window added. */
  predicate Representable(p: Process, now: Millis) {
    IsDate(now) && (p.closesAt.Some? ==> IsDate(p.closesAt.value / 1000 + CONTESTATION_WINDOW))
  }

  function WindowEnd(p: Process): Millis
    requires p.closesAt.Some?
  {
    p.closesAt.value / 1000 + CONTESTATION_WINDOW
  }

  // ---- The read -----------------------------------------------------------

  predicate IsDecided(p: Process) {
    p.stage in {Mandated, Acting, Verifying, Archived}
  }

  /** The read looks a mandate up only in a decided stage. */
  function ReadMandate(p: Process): Option<Mandate> {
    if IsDecided(p) then p.mandate else None
  }

  function CanContest(p: Process, filers: set<Actor>, caller: Caller, now: Millis): bool
    requires Representable(p, now)
  {
    var windowClosesAt :=
      if ReadMandate(p).Some? && p.closesAt.Some? then Some(ToIso(WindowEnd(p))) else None;
    && ReadMandate(p).Some?
    && caller.Participant?
    && caller.actor !in filers
    && windowClosesAt.Some?
    && LexLeq(ToIso(now), windowClosesAt.value)
    && Seat(caller.actor, p.cycle) in p.eligible
  }

  /** The read's account of a ballot that missed its quorum. */
  predicate QuorumFailed(p: Process) {
    && !IsDecided(p) && p.stage == Deliberation && p.cycle > 1
    && Event(ReturnedAfterQuorumFailure, p.cycle - 1) in p.events
  }

  // ---- The write ----------------------------------------------------------

  /** The insert trigger and the unique key; `filedAt` in milliseconds meets the window in microseconds. */
  function Guard(p: Process, filers: set<Actor>, actor: Actor, filedAt: Millis): Result<set<Actor>, Error> {
    if p.mandate.None? then Err(MandateNotDecided)
    else if p.closesAt.None? || filedAt * 1000 > p.closesAt.value + CONTESTATION_WINDOW * 1000 then Err(WindowClosed)
    else if Seat(actor, p.cycle) !in p.eligible then Err(NotEligible)
    else if actor in filers then Err(AlreadyContested)
    else Ok(filers + {actor})
  }

  /** The route's gates, in order, with the clock read once for the window and once for the row. */
  function Contest(p: Process, filers: set<Actor>, caller: Caller, now: Millis, filedAt: Millis)
    : Result<set<Actor>, Error>
    requires Representable(p, now)
  {
    if p.mandate.None? then Err(MandateNotDecided)
    else if p.closesAt.None? || !LexLeq(ToIso(now), ToIso(WindowEnd(p))) then Err(WindowClosed)
    else if caller.NoSession? then Err(SessionNotAuthorized)
    else if caller.NoAccess? then Err(NotParticipant)
    else if Seat(caller.actor, p.cycle) !in p.eligible then Err(NotEligible)
    else if caller.actor in filers then Err(AlreadyContested)
    else Guard(p, filers, caller.actor, filedAt)
  }

  // ---- The read and the write agree ---------------------------------------

  /** A reachable process has its mandate exactly in the stages where the read looks for one. */
  lemma ReadSeesMandate(p: Process)
    requires Inv(p)
    ensures ReadMandate(p) == p.mandate
    ensures p.mandate.Some? ==> p.closesAt.Some?
  {
    hide LogInv, ThresholdInv, SeatInv, VoteInv, VerificationInv, IsOutcome;
  }

  /** In milliseconds the trigger's microsecond test is the route's: the fraction never matters. */
  lemma GuardAccepts(p: Process, filers: set<Actor>, actor: Actor, filedAt: Millis)
    ensures Guard(p, filers, actor, filedAt).Ok? <==>
      && p.mandate.Some? && p.closesAt.Some? && filedAt <= WindowEnd(p)
      && Seat(actor, p.cycle) in p.eligible && actor !in filers
  {
    if p.closesAt.Some? {
      var closesAt := p.closesAt.value;
      assert filedAt * 1000 <= closesAt + CONTESTATION_WINDOW * 1000
        <==> filedAt <= closesAt / 1000 + CONTESTATION_WINDOW;
    }
  }

  /**
   * In every state a run can reach, for one caller and one instant: the read offers to contest exactly
   * when the write goes through, to the last millisecond of the 72 hours, provided the window ends
   * within the four-digit years.
   */
  lemma CanContestIffAccepted(actions: seq<Action>, filers: set<Actor>, caller: Caller, now: Millis)
    requires var p := Run(NEW_PROCESS, actions);
      && Representable(p, now) && FourDigitYear(now)
      && (p.closesAt.Some? ==> FourDigitYear(WindowEnd(p)))
    ensures var p := Run(NEW_PROCESS, actions);
      CanContest(p, filers, caller, now) <==> Contest(p, filers, caller, now, now).Ok?
  {
    var p := Run(NEW_PROCESS, actions);
    ReachableInv(actions);
    hide Run, Inv, ToIso, FieldsOf, LexLeq, InstantOf, Guard;
    ReadSeesMandate(p);
    if p.closesAt.Some? && caller.Participant? {
      IsoOrderIsTimeOrder(now, WindowEnd(p));
      GuardAccepts(p, filers, caller.actor, now);
    }
  }

  /** Acceptance in terms of real time: the row's clock may be later than the gate's, and only the row decides. */
  lemma AcceptedExactly(p: Process, filers: set<Actor>, caller: Caller, now: Millis, filedAt: Millis)
    requires Representable(p, now) && FourDigitYear(now) && now <= filedAt
    requires p.closesAt.Some? ==> FourDigitYear(WindowEnd(p))
    ensures Contest(p, filers, caller, now, filedAt).Ok? <==>
      && p.mandate.Some? && p.closesAt.Some?
      && filedAt <= p.closesAt.value / 1000 + CONTESTATION_WINDOW
      && caller.Participant? && Seat(caller.actor, p.cycle) in p.eligible && caller.actor !in filers
  {
    hide ToIso, FieldsOf, LexLeq, InstantOf, Guard;
    if p.closesAt.Some? && caller.Participant? {
      IsoOrderIsTimeOrder(now, WindowEnd(p));
      GuardAccepts(p, filers, caller.actor, filedAt);
    }
  }

  /**
   * A window ending after year 9999 compares as already over, although the database would still accept:
   * for a clock within the window, the read's flag is right exactly when the window ends by then.
   */
  lemma WindowRightIffFourDigits(p: Process, filers: set<Actor>, actor: Actor, now: Millis)
    requires Representable(p, now) && FourDigitYear(now) && IsDecided(p)
    requires p.mandate.Some? && p.closesAt.Some? && now <= WindowEnd(p)
    requires Seat(actor, p.cycle) in p.eligible && actor !in filers
    ensures Guard(p, filers, actor, now).Ok?
    ensures CanContest(p, filers, Participant(actor), now) <==> FieldsOf(WindowEnd(p)).year <= 9999
    ensures Contest(p, filers, Participant(actor), now, now).Ok? <==> FieldsOf(WindowEnd(p)).year <= 9999
  {
    hide ToIso, FieldsOf, LexLeq, InstantOf, Guard;
    IsoOrderExactly(now, WindowEnd(p));
    GuardAccepts(p, filers, actor, now);
  }

  /** Filing is once per actor: after it, the read stops offering and a second write is refused. */
  lemma ContestedOnce(p: Process, filers: set<Actor>, actor: Actor, t1: Millis, f1: Millis, t2: Millis, f2: Millis)
    requires Representable(p, t1) && Representable(p, t2)
    requires Contest(p, filers, Participant(actor), t1, f1).Ok?
    ensures var after := Contest(p, filers, Participant(actor), t1, f1).value;
      && after == filers + {actor} && actor !in filers
      && !CanContest(p, after, Participant(actor), t2)
      && Contest(p, after, Participant(actor), t2, f2) ==
           Err(if LexLeq(ToIso(t2), ToIso(WindowEnd(p))) then AlreadyContested else WindowClosed)
  {
    hide ToIso, FieldsOf, LexLeq, InstantOf;
  }

  /** The quorum flag needs no lookup in reachable states: it is the cycle number. */
  lemma QuorumFlagIsCycle(actions: seq<Action>)
    ensures var p := Run(NEW_PROCESS, actions);
      QuorumFailed(p) <==> p.stage == Deliberation && p.cycle > 1
  {
    var p := Run(NEW_PROCESS, actions);
    hide Run;
    if p.cycle > 1 {
      QuorumFailureRecorded(actions, p.cycle - 1);
    }
  }

  // ---- Offers and answers by the clock ------------------------------------

  /** The instant is within 72 hours of the close of voting, at its millisecond. */
  predicate InTime(p: Process, at: Millis) {
    p.closesAt.Some? && at <= p.closesAt.value / 1000 + 259_200_000
  }

  /** Who is offered to contest: an eligible participant who has not, while a mandate's window is open. */
  lemma OfferExactly(p: Process, filers: set<Actor>, caller: Caller, now: Millis)
    requires Inv(p) && Representable(p, now) && FourDigitYear(now)
    requires p.closesAt.Some? ==> FourDigitYear(WindowEnd(p))
    ensures CanContest(p, filers, caller, now) <==>
      && p.mandate.Some? && InTime(p, now)
      && caller.Participant? && Seat(caller.actor, p.cycle) in p.eligible && caller.actor !in filers
  {
    ReadSeesMandate(p);
    hide Inv, ToIso, FieldsOf, LexLeq, InstantOf;
    if p.closesAt.Some? { IsoOrderIsTimeOrder(now, WindowEnd(p)); }
  }

  /** The answer to a filing: the first gate that fails, and then the row's own clock against the window. */
  lemma AnswerExactly(p: Process, filers: set<Actor>, caller: Caller, now: Millis, filedAt: Millis)
    requires Representable(p, now) && FourDigitYear(now)
    requires p.closesAt.Some? ==> FourDigitYear(WindowEnd(p))
    ensures Contest(p, filers, caller, now, filedAt) ==
      if p.mandate.None? then Err(MandateNotDecided)
      else if !InTime(p, now) then Err(WindowClosed)
      else match caller
        case NoSession => Err(SessionNotAuthorized)
        case NoAccess => Err(NotParticipant)
        case Participant(actor) =>
          if Seat(actor, p.cycle) !in p.eligible then Err(NotEligible)
          else if actor in filers then Err(AlreadyContested)
          else if !InTime(p, filedAt) then Err(WindowClosed)
          else Ok(filers + {actor})
  {
    hide ToIso, FieldsOf, LexLeq, InstantOf;
    if p.closesAt.Some? {
      IsoOrderIsTimeOrder(now, WindowEnd(p));
      if caller.Participant? { GuardAccepts(p, filers, caller.actor, filedAt); }
    }
  }

  // ---- The routes ---------------------------------------------------------

  /** A process with its contestations; each request first advances the process lazily. */
  class MandateRoutes {
    const store: CivicStore
    var filers: set<Actor>

    constructor (store: CivicStore)
      ensures this.store == store && filers == {}
    {
      this.store := store;
      filers := {};
    }

    /** The write of one request, given what the tally query would answer. */
    method PostContest(caller: Caller, now: Millis, filedAt: Millis, rows: seq<TallyRow>) returns (error: Option<Error>)
      requires IsTally(rows, VotesIn(store.p.votes, store.p.cycle))
      requires Representable(Visible(store.p, now), now)
      modifies this`filers, store
      ensures store.p == Visible(old(store.p), now)
      ensures match Contest(store.p, old(filers), caller, now, filedAt)
              case Ok(after) => error == None && filers == after
              case Err(e) => error == Some(e) && filers == old(filers)
    {
      store.VisibleProcess(now, rows);
      var p := store.p;
      if p.mandate.None? {
        return Some(MandateNotDecided);
      }
      if p.closesAt.None? || !LexLeq(ToIso(now), ToIso(WindowEnd(p))) {
        return Some(WindowClosed);
      }
      if caller.NoSession? {
        return Some(SessionNotAuthorized);
      }
      if caller.NoAccess? {
        return Some(NotParticipant);
      }
      if Seat(caller.actor, p.cycle) !in p.eligible {
        return Some(NotEligible);
      }
      if caller.actor in filers {
        return Some(AlreadyContested);
      }
      if filedAt * 1000 > p.closesAt.value + CONTESTATION_WINDOW * 1000 {
        return Some(WindowClosed);
      }
      filers := filers + {caller.actor};
      return None;
    }
  }
}
