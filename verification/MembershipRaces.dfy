/**
 * Membership transitions running at the same time. Each looks its event up in the ledger, locks its account,
 * validates, writes the entitlement row and inserts the ledger row, all in one transaction; a transaction that
 * meets the unique key of the ledger rolls back and compares with the winner in a new one.
 */
module MembershipRaces {
  import opened Prelude
  import opened MembershipTransitions

  /** A transition and the clock it writes down. */
  datatype Request = Request(input: Input, clock: Time)

  /**
   * Where a transaction stands. From `Writing` to `Committing` it holds its account's row lock; what it has
   * written is seen by others only through the unique keys, until it commits.
   */
  datatype Phase =
    | Looking
    | Comparing
    | Entering
    | Writing(row: Option<Entitlement>)
    | Recording(draft: Draft)
    | Committing(draft: Draft)
    | Retrying
    | Finished(out: Reply)

  /** The row to write, if any, and how the ledger will record the event. */
  datatype Draft = Draft(written: Option<Entitlement>, result: Recorded, out: Outcome)

  datatype Reply = Answered(out: Outcome) | RecoveryFailed

  datatype State = State(db: Store, phases: seq<Phase>, commits: seq<nat>)

  // ---- Locks and unique keys ----------------------------------------------

  predicate HoldsAccount(req: Request, phase: Phase, account: Id) {
    (phase.Writing? || phase.Recording? || phase.Committing?) && req.input.account == account
  }

  /** The ledger row found by a lookup stays locked until the comparison ends. */
  predicate HoldsEvent(req: Request, phase: Phase, key: Key) {
    phase.Comparing? && KeyOf(req.input) == key
  }

  /** An inserted ledger row, not yet committed. */
  predicate HoldsKey(req: Request, phase: Phase, key: Key) {
    phase.Committing? && KeyOf(req.input) == key
  }

  function DraftOf(phase: Phase): Option<Draft> {
    match phase
    case Recording(draft) => Some(draft)
    case Committing(draft) => Some(draft)
    case _ => None
  }

  /** The row a transaction has written but not committed. */
  function Pending(phase: Phase): Option<Entitlement> {
    match DraftOf(phase)
    case None => None
    case Some(draft) => draft.written
  }

  predicate SameSubscription(e: Entitlement, f: Entitlement) {
    e.source == Stripe && f.source == Stripe && e.subscription.Some? && e.subscription == f.subscription
  }

  /** The transaction is replacing a row that holds, or will hold, the subscription of `e`. */
  predicate HoldsSubscription(db: Store, req: Request, phase: Phase, e: Entitlement) {
    && Pending(phase).Some?
    && (|| SameSubscription(Pending(phase).value, e)
        || (req.input.account in db.rows && SameSubscription(db.rows[req.input.account], e)))
  }

  /** Whether transaction `i` can take its next step now, or must wait for a lock or a key of another. */
  predicate CanStep(reqs: seq<Request>, production: bool, s: State, i: nat) {
    && i < |s.phases| == |reqs| && !s.phases[i].Finished?
    && (forall j :: 0 <= j < |reqs| && j != i ==>
          !Waits(s.db, production, reqs[i], s.phases[i], reqs[j], s.phases[j]))
  }

  /** The first transaction's next step waits for the second. */
  predicate Waits(db: Store, production: bool, req: Request, phase: Phase, other: Request, at: Phase) {
    var input := req.input;
    match phase
    case Looking => !Barred(input, production) && HoldsEvent(other, at, KeyOf(input))
    case Retrying => HoldsEvent(other, at, KeyOf(input))
    case Comparing => HoldsAccount(other, at, input.account)
    case Entering => HoldsAccount(other, at, input.account)
    case Writing(row) =>
      input.account in db.accounts && Validate(db.accounts[input.account], row, input) == Apply &&
      var e := Mutate(db.accounts[input.account], row, input, req.clock);
      RowCheck(e) && HoldsSubscription(db, other, at, e)
    case Recording(_) => HoldsKey(other, at, KeyOf(input))
    case _ => false
  }

  predicate Barred(input: Input, production: bool) {
    input.source == TestFixture && production
  }

  // ---- Steps --------------------------------------------------------------

  function Moved(s: State, i: nat, phase: Phase): State
    requires i < |s.phases|
  {
    s.(phases := s.phases[i := phase])
  }

  /** The transaction ends, leaving the tables as `db`, and its locks go with it. */
  function Ended(s: State, i: nat, db: Store, reply: Reply): State
    requires i < |s.phases|
  {
    State(db, s.phases[i := Finished(reply)], s.commits + [i])
  }

  /** With the account locked and its row read: refuse, or go on to write. */
  function Validated(s: State, i: nat, input: Input): State
    requires i < |s.phases| && input.account in s.db.accounts
  {
    var row := RowOf(s.db, input.account);
    match Validate(s.db.accounts[input.account], row, input)
    case Reject(reason) => Moved(s, i, Recording(Draft(None, RecordedRejected, Rejected(reason))))
    case Stale(reason) => Moved(s, i, Recording(Draft(None, RecordedStale, StaleEvent(reason))))
    case Apply => Moved(s, i, Writing(row))
  }

  function Committed(db: Store, input: Input, draft: Draft): Store {
    var rows := if draft.written.Some? then db.rows[input.account := draft.written.value] else db.rows;
    Record(db.(rows := rows), input, draft.result)
  }

  function Step(reqs: seq<Request>, production: bool, s: State, i: nat): State
    requires i < |s.phases| == |reqs|
  {
    var input := reqs[i].input;
    match s.phases[i]
    case Looking =>
      if Barred(input, production) then Ended(s, i, s.db, Answered(Thrown(SourceNotAllowed)))
      else Moved(s, i, if KeyOf(input) in s.db.ledger then Comparing else Entering)
    case Retrying =>
      if KeyOf(input) in s.db.ledger then Moved(s, i, Comparing) else Ended(s, i, s.db, RecoveryFailed)
    case Comparing =>
      if KeyOf(input) in s.db.ledger then Ended(s, i, s.db, Answered(Existing(s.db, input)))
      else Ended(s, i, s.db, RecoveryFailed)
    case Entering =>
      if input.account !in s.db.accounts then Ended(s, i, s.db, Answered(Thrown(AccountNotFound)))
      else Validated(s, i, input)
    case Writing(row) =>
      if input.account !in s.db.accounts || Validate(s.db.accounts[input.account], row, input) != Apply then s
      else
        var e := Mutate(s.db.accounts[input.account], row, input, reqs[i].clock);
        if !RowCheck(e) || Clashes(s.db.rows, input.account, e) then
          Ended(s, i, s.db, Answered(Thrown(ConstraintViolation)))
        else
          Moved(s, i, Recording(Draft(Some(e), RecordedApplied, Applied)))
    case Recording(draft) =>
      Moved(s, i, if KeyOf(input) in s.db.ledger then Retrying else Committing(draft))
    case Committing(draft) =>
      Ended(s, i, Committed(s.db, input, draft), Answered(draft.out))
    case Finished(_) => s
  }

  function Start(db: Store, reqs: seq<Request>): State {
    State(db, seq(|reqs|, i => Looking), [])
  }

  /** A schedule names who tries to move next; a transaction that has to wait does not move. */
  function Run(reqs: seq<Request>, production: bool, s: State, schedule: seq<nat>): State {
    if schedule == [] then
      s
    else
      var before, i := Run(reqs, production, s, schedule[..|schedule| - 1]), schedule[|schedule| - 1];
      if CanStep(reqs, production, before, i) then Step(reqs, production, before, i) else before
  }

  // ---- What every schedule keeps ------------------------------------------

  /** What a draft was made from is still there: its own account row is locked, its subscription free. */
  ghost predicate DraftHolds(db: Store, req: Request, draft: Draft) {
    var input := req.input;
    && input.account in db.accounts
    && var closed, row := db.accounts[input.account], RowOf(db, input.account);
       match Validate(closed, row, input)
       case Reject(reason) => draft == Draft(None, RecordedRejected, Rejected(reason))
       case Stale(reason) => draft == Draft(None, RecordedStale, StaleEvent(reason))
       case Apply =>
         var e := Mutate(closed, row, input, req.clock);
         draft == Draft(Some(e), RecordedApplied, Applied) && RowCheck(e) && !Clashes(db.rows, input.account, e)
  }

  ghost predicate PhaseHolds(db: Store, req: Request, production: bool, phase: Phase) {
    && (!phase.Looking? && !phase.Finished? ==> !Barred(req.input, production))
    && match phase
       case Comparing => KeyOf(req.input) in db.ledger
       case Retrying => KeyOf(req.input) in db.ledger
       case Writing(row) =>
         && req.input.account in db.accounts && row == RowOf(db, req.input.account)
         && Validate(db.accounts[req.input.account], row, req.input) == Apply
       case Recording(draft) => DraftHolds(db, req, draft)
       case Committing(draft) => DraftHolds(db, req, draft) && KeyOf(req.input) !in db.ledger
       case _ => true
  }

  /** Two transactions never hold one account, one uncommitted key, or one uncommitted subscription. */
  ghost predicate Apart(r: Request, p: Phase, q: Request, o: Phase) {
    && !(HoldsAccount(r, p, r.input.account) && HoldsAccount(q, o, r.input.account))
    && !(HoldsKey(r, p, KeyOf(r.input)) && HoldsKey(q, o, KeyOf(r.input)))
    && (Pending(p).Some? && Pending(o).Some? ==> !SameSubscription(Pending(p).value, Pending(o).value))
  }

  ghost predicate RaceInv(reqs: seq<Request>, production: bool, s: State) {
    && |s.phases| == |reqs|
    && (forall i :: 0 <= i < |reqs| ==> PhaseHolds(s.db, reqs[i], production, s.phases[i]))
    && (forall i, j :: 0 <= i < |reqs| && 0 <= j < |reqs| && i != j ==>
          Apart(reqs[i], s.phases[i], reqs[j], s.phases[j]))
  }

  lemma StartInv(reqs: seq<Request>, production: bool, db: Store)
    ensures RaceInv(reqs, production, Start(db, reqs))
  {
  }

  /** A step of one transaction that neither changes the tables nor takes what another holds. */
  lemma MoveKeepsInv(reqs: seq<Request>, production: bool, s: State, i: nat, phase: Phase, t: State)
    requires RaceInv(reqs, production, s) && i < |reqs| && PhaseHolds(s.db, reqs[i], production, phase)
    requires t.db == s.db && t.phases == s.phases[i := phase]
    requires forall j :: 0 <= j < |reqs| && j != i ==> Apart(reqs[i], phase, reqs[j], s.phases[j])
    ensures RaceInv(reqs, production, t)
  {
    hide PhaseHolds;
    forall j, k | 0 <= j < |reqs| && 0 <= k < |reqs| && j != k
      ensures Apart(reqs[j], t.phases[j], reqs[k], t.phases[k])
    {
      if k == i { assert Apart(reqs[i], phase, reqs[j], s.phases[j]); }
      if j != i && k != i { assert Apart(reqs[j], s.phases[j], reqs[k], s.phases[k]); }
    }
  }

  /** A transaction's own step keeps what its phase says and takes nothing that another holds. */
  lemma StepPhase(reqs: seq<Request>, production: bool, s: State, i: nat)
    requires RaceInv(reqs, production, s) && CanStep(reqs, production, s, i) && !s.phases[i].Committing?
    ensures var t := Step(reqs, production, s, i);
      && t.db == s.db && |t.phases| == |reqs| && t.phases == s.phases[i := t.phases[i]]
      && PhaseHolds(s.db, reqs[i], production, t.phases[i])
      && forall j :: 0 <= j < |reqs| && j != i ==> Apart(reqs[i], t.phases[i], reqs[j], s.phases[j])
  {
    var t := Step(reqs, production, s, i);
    assert PhaseHolds(s.db, reqs[i], production, s.phases[i]);
    forall j | 0 <= j < |reqs| && j != i ensures Apart(reqs[i], t.phases[i], reqs[j], s.phases[j]) {
      assert Apart(reqs[i], s.phases[i], reqs[j], s.phases[j]);
      assert !Waits(s.db, production, reqs[i], s.phases[i], reqs[j], s.phases[j]);
    }
  }

  /** The commit of one transaction leaves what every other one relies on. */
  lemma CommitKeepsOther(db: Store, production: bool, r: Request, p: Phase, q: Request, o: Phase)
    requires p.Committing? && PhaseHolds(db, r, production, p) && PhaseHolds(db, q, production, o)
    requires Apart(r, p, q, o)
    ensures PhaseHolds(Committed(db, r.input, p.draft), q, production, o)
  {
    var after := Committed(db, r.input, p.draft);
    if HoldsAccount(q, o, q.input.account) {
      assert r.input.account != q.input.account;
      assert RowOf(after, q.input.account) == RowOf(db, q.input.account);
      if Pending(o).Some? {
        assert !Clashes(db.rows, q.input.account, Pending(o).value);
        assert !Clashes(after.rows, q.input.account, Pending(o).value);
      }
    }
    hide Validate, Mutate, RowCheck;
  }

  lemma StepKeepsInv(reqs: seq<Request>, production: bool, s: State, i: nat)
    requires RaceInv(reqs, production, s) && CanStep(reqs, production, s, i)
    ensures RaceInv(reqs, production, Step(reqs, production, s, i))
  {
    var t := Step(reqs, production, s, i);
    if s.phases[i].Committing? {
      forall j | 0 <= j < |reqs| ensures PhaseHolds(t.db, reqs[j], production, t.phases[j]) {
        if j != i {
          CommitKeepsOther(s.db, production, reqs[i], s.phases[i], reqs[j], s.phases[j]);
        }
      }
      hide PhaseHolds;
      forall j, k | 0 <= j < |reqs| && 0 <= k < |reqs| && j != k
        ensures Apart(reqs[j], t.phases[j], reqs[k], t.phases[k])
      {
        assert Apart(reqs[j], s.phases[j], reqs[k], s.phases[k]);
      }
    } else {
      StepPhase(reqs, production, s, i);
      hide PhaseHolds, Step, Apart;
      MoveKeepsInv(reqs, production, s, i, t.phases[i], t);
    }
  }

  // ---- One order explains every schedule ----------------------------------

  /** The transitions of these requests, one after another. */
  function Serial(db: Store, reqs: seq<Request>, production: bool, order: seq<nat>): Store
    requires forall k :: 0 <= k < |order| ==> order[k] < |reqs|
  {
    if order == [] then
      db
    else
      var req := reqs[order[|order| - 1]];
      Transition(Serial(db, reqs, production, order[..|order| - 1]), req.input, req.clock, production).0
  }

  /**
   * The reply that a transition gives on these tables; or, when its event has been recorded since it looked,
   * the error that its own work runs into before it reaches the ledger.
   */
  predicate Answers(db: Store, req: Request, production: bool, reply: Reply) {
    && reply.Answered?
    && (|| reply.out == Transition(db, req.input, req.clock, production).1
        || (&& KeyOf(req.input) in db.ledger && reply.out.Thrown?
            && reply.out == Fresh(db, req.input, req.clock).1))
  }

  /** A step either leaves tables and commits alone, or ends its transaction as one serial transition. */
  lemma StepIsSerial(reqs: seq<Request>, production: bool, s: State, i: nat)
    requires RaceInv(reqs, production, s) && CanStep(reqs, production, s, i)
    ensures var t, req := Step(reqs, production, s, i), reqs[i];
      && |t.phases| == |s.phases| && t.phases == s.phases[i := t.phases[i]]
      && (if t.phases[i].Finished?
          then t.commits == s.commits + [i]
               && t.db == Transition(s.db, req.input, req.clock, production).0
               && Answers(s.db, req, production, t.phases[i].out)
          else t.commits == s.commits && t.db == s.db)
  {
    assert PhaseHolds(s.db, reqs[i], production, s.phases[i]);
    hide Validate, Mutate;
  }

  /** Commit `k` ended its transaction with the answer of the serial run up to there. */
  ghost predicate Explained(db: Store, reqs: seq<Request>, production: bool, phases: seq<Phase>, commits: seq<nat>,
                            k: nat)
    requires |phases| == |reqs| && k < |commits| && forall k :: 0 <= k < |commits| ==> commits[k] < |reqs|
  {
    && phases[commits[k]].Finished?
    && Answers(Serial(db, reqs, production, commits[..k]), reqs[commits[k]], production, phases[commits[k]].out)
  }

  ghost predicate MatchesSerial(db: Store, reqs: seq<Request>, production: bool, s: State) {
    && |s.phases| == |reqs|
    && (forall k :: 0 <= k < |s.commits| ==> s.commits[k] < |reqs|)
    && s.db == Serial(db, reqs, production, s.commits)
    && Distinct(s.commits)
    && (forall i :: 0 <= i < |reqs| ==> (s.phases[i].Finished? <==> i in s.commits))
    && (forall k :: 0 <= k < |s.commits| ==> Explained(db, reqs, production, s.phases, s.commits, k))
  }

  lemma StillExplained(db: Store, reqs: seq<Request>, production: bool, s: State, t: State, i: nat, k: nat)
    requires MatchesSerial(db, reqs, production, s) && i < |reqs| && i !in s.commits && k < |s.commits|
    requires |t.phases| == |reqs| && t.phases == s.phases[i := t.phases[i]]
    requires t.commits == s.commits || t.commits == s.commits + [i]
    ensures forall k :: 0 <= k < |t.commits| ==> t.commits[k] < |reqs|
    ensures Explained(db, reqs, production, t.phases, t.commits, k)
  {
    assert Explained(db, reqs, production, s.phases, s.commits, k);
    assert s.commits[k] in s.commits && t.commits[..k] == s.commits[..k];
    hide Answers, Serial;
  }

  lemma StepKeepsSerial(db: Store, reqs: seq<Request>, production: bool, s: State, i: nat)
    requires RaceInv(reqs, production, s) && CanStep(reqs, production, s, i) && MatchesSerial(db, reqs, production, s)
    ensures MatchesSerial(db, reqs, production, Step(reqs, production, s, i))
  {
    var t := Step(reqs, production, s, i);
    StepIsSerial(reqs, production, s, i);
    hide Step, RaceInv, Answers, Transition;
    forall k | 0 <= k < |s.commits| ensures Explained(db, reqs, production, t.phases, t.commits, k) {
      StillExplained(db, reqs, production, s, t, i, k);
    }
    if t.phases[i].Finished? {
      assert t.commits[..|s.commits|] == s.commits;
      assert forall k :: 0 <= k < |s.commits| ==> s.commits[k] in s.commits;
    }
  }

  /**
   * Every schedule of any transitions: the tables are those of running the finished ones one after another in
   * the order in which they ended, and so is each reply, but for errors met by a transition whose event another
   * one has recorded in the meantime.
   */
  lemma {:induction false} ConcurrentIsSerial(db: Store, reqs: seq<Request>, production: bool, schedule: seq<nat>)
    ensures var s := Run(reqs, production, Start(db, reqs), schedule);
      RaceInv(reqs, production, s) && MatchesSerial(db, reqs, production, s)
  {
    if schedule != [] {
      var n := |schedule| - 1;
      ConcurrentIsSerial(db, reqs, production, schedule[..n]);
      var before := Run(reqs, production, Start(db, reqs), schedule[..n]);
      if CanStep(reqs, production, before, schedule[n]) {
        StepKeepsInv(reqs, production, before, schedule[n]);
        StepKeepsSerial(db, reqs, production, before, schedule[n]);
      }
      hide RaceInv, MatchesSerial, Step, CanStep;
    }
  }

  // ---- Once per event -----------------------------------------------------

  lemma {:induction false} LedgerGrows(db: Store, reqs: seq<Request>, production: bool, order: seq<nat>, k: nat)
    requires k <= |order| && forall k :: 0 <= k < |order| ==> order[k] < |reqs|
    ensures forall key <- Serial(db, reqs, production, order[..k]).ledger ::
      key in Serial(db, reqs, production, order).ledger
  {
    if k == |order| {
      assert order[..k] == order;
    } else {
      var n := |order| - 1;
      LedgerGrows(db, reqs, production, order[..n], k);
      assert order[..n][..k] == order[..k];
      var req := reqs[order[n]];
      TransitionEffect(Serial(db, reqs, production, order[..n]), req.input, req.clock, production);
      hide Transition;
    }
  }

  lemma AppliedRecords(db: Store, req: Request, production: bool, reply: Reply)
    requires Answers(db, req, production, reply) && reply == Answered(Applied)
    ensures KeyOf(req.input) !in db.ledger
    ensures KeyOf(req.input) in Transition(db, req.input, req.clock, production).0.ledger
  {
    hide Validate, Mutate, Clashes, RowCheck;
  }

  predicate Applies(s: State, i: nat) {
    i < |s.phases| && s.phases[i] == Finished(Answered(Applied))
  }

  /** Of all transitions of one event, however they interleave, one at most is applied. */
  lemma AppliedOncePerEvent(db: Store, reqs: seq<Request>, production: bool, schedule: seq<nat>, i: nat, j: nat)
    requires i < j < |reqs| && KeyOf(reqs[i].input) == KeyOf(reqs[j].input)
    ensures var s := Run(reqs, production, Start(db, reqs), schedule); !(Applies(s, i) && Applies(s, j))
  {
    var s := Run(reqs, production, Start(db, reqs), schedule);
    ConcurrentIsSerial(db, reqs, production, schedule);
    if Applies(s, i) && Applies(s, j) {
      assert i in s.commits && j in s.commits;
      var k :| 0 <= k < |s.commits| && s.commits[k] == i;
      var l :| 0 <= l < |s.commits| && s.commits[l] == j;
      assert Explained(db, reqs, production, s.phases, s.commits, k);
      assert Explained(db, reqs, production, s.phases, s.commits, l);
      assert forall k :: 0 <= k < |s.commits| ==> s.commits[k] < |reqs|;
      hide Run, Answers, Transition, MatchesSerial, RaceInv;
      if k < l {
        AppliedFirst(db, reqs, production, s.phases, s.commits, k, l);
      } else {
        AppliedFirst(db, reqs, production, s.phases, s.commits, l, k);
      }
    }
  }

  /** The comparison after a lost race always finds the winner's event. */
  lemma RecoveryNeverFails(db: Store, reqs: seq<Request>, production: bool, schedule: seq<nat>)
    ensures Finished(RecoveryFailed) !in Run(reqs, production, Start(db, reqs), schedule).phases
  {
    var s := Run(reqs, production, Start(db, reqs), schedule);
    ConcurrentIsSerial(db, reqs, production, schedule);
    forall i | 0 <= i < |s.phases| && s.phases[i].Finished? ensures s.phases[i].out.Answered? {
      assert i in s.commits;
      var k :| 0 <= k < |s.commits| && s.commits[k] == i;
      assert Explained(db, reqs, production, s.phases, s.commits, k);
    }
    hide Run, RaceInv, MatchesSerial;
  }

  lemma AppliedFirst(
      db: Store, reqs: seq<Request>, production: bool, phases: seq<Phase>, commits: seq<nat>, k: nat, l: nat)
    requires |phases| == |reqs| && k < l < |commits| && forall k :: 0 <= k < |commits| ==> commits[k] < |reqs|
    requires Explained(db, reqs, production, phases, commits, k) && Explained(db, reqs, production, phases, commits, l)
    requires KeyOf(reqs[commits[k]].input) == KeyOf(reqs[commits[l]].input)
    ensures !(phases[commits[k]].out == Answered(Applied) && phases[commits[l]].out == Answered(Applied))
  {
    hide Answers, Transition;
    if phases[commits[k]].out == Answered(Applied) && phases[commits[l]].out == Answered(Applied) {
      AppliedRecords(Serial(db, reqs, production, commits[..k]), reqs[commits[k]], production, Answered(Applied));
      AppliedRecords(Serial(db, reqs, production, commits[..l]), reqs[commits[l]], production, Answered(Applied));
      assert commits[..l][..k + 1] == commits[..k + 1] && commits[..k + 1][..k] == commits[..k];
      LedgerGrows(db, reqs, production, commits[..l], k + 1);
    }
  }

  // ---- Copies of one transition, all at once ------------------------------

  ghost predicate AllCopies(reqs: seq<Request>, input: Input) {
    forall i :: 0 <= i < |reqs| ==> reqs[i].input == input
  }

  /** Ended `w` is the first that answered at all; the ones before it met an error. */
  ghost predicate FirstAnswer(s: State, w: nat) {
    && w < |s.commits|
    && (forall k :: 0 <= k < |s.commits| ==> s.commits[k] < |s.phases| && s.phases[s.commits[k]].Finished?)
    && (forall k :: 0 <= k < w ==> ErrorReply(s.phases[s.commits[k]].out))
    && !ErrorReply(s.phases[s.commits[w]].out)
  }

  predicate ErrorReply(reply: Reply) {
    reply.RecoveryFailed? || reply.out.Thrown?
  }

  /** Up to the first answer nothing is written. */
  lemma {:induction false} ErrorsWriteNothing(
      db: Store, input: Input, reqs: seq<Request>, production: bool, s: State, w: nat, m: nat)
    requires MatchesSerial(db, reqs, production, s) && AllCopies(reqs, input) && KeyOf(input) !in db.ledger
    requires FirstAnswer(s, w) && m <= w
    ensures Serial(db, reqs, production, s.commits[..m]) == db
  {
    if m > 0 {
      ErrorsWriteNothing(db, input, reqs, production, s, w, m - 1);
      assert s.commits[..m][..m - 1] == s.commits[..m - 1];
      assert Explained(db, reqs, production, s.phases, s.commits, m - 1);
    }
    hide Validate, Mutate, Clashes, RowCheck;
  }

  lemma AnswerRecords(db: Store, req: Request, production: bool, reply: Reply)
    requires Answers(db, req, production, reply) && KeyOf(req.input) !in db.ledger && !ErrorReply(reply)
    ensures var (after, out) := Transition(db, req.input, req.clock, production);
      && reply == Answered(out) && !Barred(req.input, production)
      && KeyOf(req.input) in after.ledger && after.ledger[KeyOf(req.input)].payload == req.input
  {
    hide Validate, Mutate, Clashes, RowCheck;
  }

  lemma RecordedStays(db: Store, req: Request, production: bool)
    requires KeyOf(req.input) in db.ledger
    ensures Transition(db, req.input, req.clock, production).0 == db
  {
    hide Fresh;
  }

  /** Once the event is recorded its copies write nothing more. */
  lemma {:induction false} RecordedForever(
      db: Store, input: Input, reqs: seq<Request>, production: bool, order: seq<nat>, m: nat, n: nat)
    requires AllCopies(reqs, input) && m <= n <= |order| && forall k :: 0 <= k < |order| ==> order[k] < |reqs|
    requires KeyOf(input) in Serial(db, reqs, production, order[..m]).ledger
    ensures Serial(db, reqs, production, order[..n]) == Serial(db, reqs, production, order[..m])
  {
    if m < n {
      assert order[..n][..n - 1] == order[..n - 1];
      RecordedForever(db, input, reqs, production, order, m, n - 1);
      hide Transition;
      RecordedStays(Serial(db, reqs, production, order[..n - 1]), reqs[order[n - 1]], production);
    }
  }

  /** The first answer is that of the transition on the tables at the start, which it records. */
  lemma FirstAnswerRecords(db: Store, input: Input, reqs: seq<Request>, production: bool, s: State, w: nat)
    requires MatchesSerial(db, reqs, production, s) && AllCopies(reqs, input) && KeyOf(input) !in db.ledger
    requires FirstAnswer(s, w)
    ensures var (after, out) := Transition(db, input, reqs[s.commits[w]].clock, production);
      && Serial(db, reqs, production, s.commits[..w + 1]) == after
      && s.phases[s.commits[w]].out == Answered(out)
      && KeyOf(input) in after.ledger && after.ledger[KeyOf(input)].payload == input && !Barred(input, production)
  {
    var winner := s.commits[w];
    ErrorsWriteNothing(db, input, reqs, production, s, w, w);
    assert Explained(db, reqs, production, s.phases, s.commits, w);
    assert s.commits[..w + 1][..w] == s.commits[..w];
    hide Transition, Answers, MatchesSerial;
    AnswerRecords(db, reqs[winner], production, s.phases[winner].out);
  }

  /**
   * Copies of one transition, in any interleaving and at any clocks: the tables are those of the first that
   * answered, and every later one replays, unless it is an activation that aborts for a clock before the
   * creation of the row.
   */
  lemma CopiesResolve(
      db: Store, input: Input, reqs: seq<Request>, production: bool, schedule: seq<nat>, w: nat, k: nat)
    requires Inv(db) && AllCopies(reqs, input) && KeyOf(input) !in db.ledger
    requires FirstAnswer(Run(reqs, production, Start(db, reqs), schedule), w)
    requires w < k < |Run(reqs, production, Start(db, reqs), schedule).commits|
    ensures var s := Run(reqs, production, Start(db, reqs), schedule);
      var winner, loser := s.commits[w], s.commits[k];
      && winner < |reqs| && loser < |reqs|
      && (s.db, s.phases[winner].out.out) == Transition(db, input, reqs[winner].clock, production)
      && (|| s.phases[loser].out == Answered(Replayed)
          || (&& s.phases[loser].out == Answered(Thrown(ConstraintViolation))
              && input.kind == Activate && s.phases[winner].out == Answered(Applied)
              && reqs[loser].clock < s.db.rows[input.account].createdAt
              && reqs[winner].clock <= input.effectiveAt))
  {
    var s := Run(reqs, production, Start(db, reqs), schedule);
    ConcurrentIsSerial(db, reqs, production, schedule);
    hide Run;
    FirstAnswerRecords(db, input, reqs, production, s, w);
    RecordedForever(db, input, reqs, production, s.commits, w + 1, k);
    RecordedForever(db, input, reqs, production, s.commits, w + 1, |s.commits|);
    assert s.commits[..|s.commits|] == s.commits;
    assert Explained(db, reqs, production, s.phases, s.commits, k);
    RacedTransitionExactly(db, input, reqs[s.commits[w]].clock, reqs[s.commits[k]].clock, production);
  }

  function RowVersion(db: Store, account: Id): nat {
    if account in db.rows then db.rows[account].version else 0
  }

  /** With one clock for all of them every later copy replays, and what was applied was applied once. */
  lemma SimultaneousCopiesReplay(
      db: Store, input: Input, reqs: seq<Request>, production: bool, schedule: seq<nat>, w: nat, k: nat, clock: Time)
    requires Inv(db) && AllCopies(reqs, input) && KeyOf(input) !in db.ledger
    requires forall i :: 0 <= i < |reqs| ==> reqs[i].clock == clock
    requires FirstAnswer(Run(reqs, production, Start(db, reqs), schedule), w)
    requires w < k < |Run(reqs, production, Start(db, reqs), schedule).commits|
    ensures var s := Run(reqs, production, Start(db, reqs), schedule);
      && s.commits[k] < |reqs| && s.phases[s.commits[k]].out == Answered(Replayed)
      && s.db == Transition(db, input, clock, production).0
      && (Applies(s, s.commits[w]) ==>
            && input.account in s.db.rows
            && s.db.rows[input.account].version == RowVersion(db, input.account) + 1)
  {
    var s := Run(reqs, production, Start(db, reqs), schedule);
    TransitionEffect(db, input, clock, production);
    CopiesResolve(db, input, reqs, production, schedule, w, k);
    hide Run;
    if s.phases[s.commits[w]].out == Answered(Applied) {
      TransitionKeepsInv(db, input, clock, production);
      AppliedAt(db, input, clock, production);
    }
  }

  lemma AppliedAt(db: Store, input: Input, clock: Time, production: bool)
    requires Inv(db) && Transition(db, input, clock, production).1 == Applied
    ensures input.account in Transition(db, input, clock, production).0.rows
    ensures Transition(db, input, clock, production).0.rows[input.account].createdAt <= clock
  {
  }

  // ---- No schedule gets stuck ---------------------------------------------

  /** A transaction waits only for one that has come further. */
  function Rank(phase: Phase): nat {
    match phase
    case Looking => 0
    case Retrying => 0
    case Comparing => 1
    case Entering => 1
    case Writing(_) => 2
    case Recording(_) => 3
    case Committing(_) => 4
    case Finished(_) => 5
  }

  lemma WaitsForFurther(db: Store, production: bool, r: Request, p: Phase, q: Request, o: Phase)
    requires Waits(db, production, r, p, q, o)
    ensures Rank(p) < Rank(o) && !o.Finished?
  {
    hide Validate, Mutate, RowCheck;
  }

  lemma {:induction false} Foremost(phases: seq<Phase>, n: nat, i: nat) returns (m: nat)
    requires i < n <= |phases| && !phases[i].Finished?
    ensures m < n && !phases[m].Finished?
    ensures forall j :: 0 <= j < n && !phases[j].Finished? ==> Rank(phases[j]) <= Rank(phases[m])
  {
    if exists j :: 0 <= j < n - 1 && !phases[j].Finished? {
      var j :| 0 <= j < n - 1 && !phases[j].Finished?;
      m := Foremost(phases, n - 1, j);
      if !phases[n - 1].Finished? && Rank(phases[n - 1]) > Rank(phases[m]) {
        m := n - 1;
      }
    } else {
      m := i;
    }
  }

  /** While some transaction is unfinished, some transaction can step: the row locks and keys never deadlock. */
  lemma NeverStuck(reqs: seq<Request>, production: bool, s: State, i: nat)
    requires |s.phases| == |reqs| && i < |reqs| && !s.phases[i].Finished?
    ensures exists m :: CanStep(reqs, production, s, m)
  {
    var m := Foremost(s.phases, |reqs|, i);
    forall j | 0 <= j < |reqs| && j != m
      ensures !Waits(s.db, production, reqs[m], s.phases[m], reqs[j], s.phases[j])
    {
      if Waits(s.db, production, reqs[m], s.phases[m], reqs[j], s.phases[j]) {
        WaitsForFurther(s.db, production, reqs[m], s.phases[m], reqs[j], s.phases[j]);
      }
    }
    assert CanStep(reqs, production, s, m);
  }

  // ---- Every schedule ends ------------------------------------------------

  /** How many steps are left at most, counting a retry. */
  function Left(phase: Phase): nat {
    match phase
    case Looking => 6
    case Entering => 5
    case Writing(_) => 4
    case Recording(_) => 3
    case Retrying => 2
    case Comparing => 1
    case Committing(_) => 1
    case Finished(_) => 0
  }

  function Remaining(phases: seq<Phase>): nat {
    if phases == [] then 0 else Remaining(phases[..|phases| - 1]) + Left(phases[|phases| - 1])
  }

  lemma {:induction false} RemainingUpdate(phases: seq<Phase>, i: nat, phase: Phase)
    requires i < |phases|
    ensures Remaining(phases[i := phase]) - Left(phase) == Remaining(phases) - Left(phases[i])
  {
    var n := |phases| - 1;
    if i == n {
      assert phases[i := phase][..n] == phases[..n];
    } else {
      assert phases[i := phase][..n] == phases[..n][i := phase];
      RemainingUpdate(phases[..n], i, phase);
    }
  }

  function Moves(reqs: seq<Request>, production: bool, s: State, schedule: seq<nat>): nat {
    if schedule == [] then
      0
    else
      var shorter, i := schedule[..|schedule| - 1], schedule[|schedule| - 1];
      Moves(reqs, production, s, shorter)
      + if CanStep(reqs, production, Run(reqs, production, s, shorter), i) then 1 else 0
  }

  lemma {:induction false} MovesAccounted(db: Store, reqs: seq<Request>, production: bool, schedule: seq<nat>)
    ensures var s := Start(db, reqs);
      Moves(reqs, production, s, schedule) + Remaining(Run(reqs, production, s, schedule).phases)
        <= Remaining(s.phases)
  {
    if schedule != [] {
      var shorter, i := schedule[..|schedule| - 1], schedule[|schedule| - 1];
      MovesAccounted(db, reqs, production, shorter);
      var before := Run(reqs, production, Start(db, reqs), shorter);
      ConcurrentIsSerial(db, reqs, production, shorter);
      if CanStep(reqs, production, before, i) {
        var after := Step(reqs, production, before, i);
        StepIsSerial(reqs, production, before, i);
        StepLeaves(reqs, production, before, i);
        RemainingUpdate(before.phases, i, after.phases[i]);
      }
      hide Step, CanStep, RaceInv, MatchesSerial;
    }
  }

  lemma StepLeaves(reqs: seq<Request>, production: bool, s: State, i: nat)
    requires RaceInv(reqs, production, s) && CanStep(reqs, production, s, i)
    ensures |Step(reqs, production, s, i).phases| == |s.phases|
    ensures Left(Step(reqs, production, s, i).phases[i]) < Left(s.phases[i])
  {
    assert PhaseHolds(s.db, reqs[i], production, s.phases[i]);
    hide Validate, Mutate, RowCheck, Clashes;
  }

  lemma {:induction false} RemainingAtStart(phases: seq<Phase>)
    requires forall i :: 0 <= i < |phases| ==> phases[i] == Looking
    ensures Remaining(phases) == 6 * |phases|
  {
    if phases != [] { RemainingAtStart(phases[..|phases| - 1]); }
  }

  /** At most six moves per transition; a schedule that can move no further has ended each of them once. */
  lemma EveryScheduleEnds(db: Store, reqs: seq<Request>, production: bool, schedule: seq<nat>)
    ensures Moves(reqs, production, Start(db, reqs), schedule) <= 6 * |reqs|
    ensures var s := Run(reqs, production, Start(db, reqs), schedule);
      (forall i :: !CanStep(reqs, production, s, i)) ==>
        && |s.phases| == |reqs| && Distinct(s.commits)
        && (forall i :: 0 <= i < |reqs| ==> s.phases[i].Finished? && i in s.commits)
  {
    var s := Run(reqs, production, Start(db, reqs), schedule);
    ConcurrentIsSerial(db, reqs, production, schedule);
    MovesAccounted(db, reqs, production, schedule);
    RemainingAtStart(Start(db, reqs).phases);
    hide Run, CanStep, RaceInv;
    forall i | 0 <= i < |reqs| && !s.phases[i].Finished? ensures exists m :: CanStep(reqs, production, s, m) {
      NeverStuck(reqs, production, s, i);
    }
  }

  // ---- A race that aborts -------------------------------------------------

  const RACED := Input(Stripe, "evt", Activate, "a", 20, Some(99), None, None, None)
  const RACERS := [Request(RACED, 20), Request(RACED, 10)]
  const UNPAID := Store(map["a" := false], map[], map[])
  const PAID := Entitlement(Active, Some(99), false, Stripe, None, None, Some(20), None, None, 20, 20, 1)
  const PAYMENT := Draft(Some(PAID), RecordedApplied, Applied)
  const SETTLED := Store(map["a" := false], map["a" := PAID], map[KeyOf(RACED) := Entry(RACED, RecordedApplied)])

  /** Both look before either records; then the first goes all the way, and after it the second. */
  const RACE: seq<nat> := [0, 1, 0, 0, 0, 0, 1, 1]

  function RaceState(n: nat): State {
    if n == 0 then State(UNPAID, [Looking, Looking], [])
    else if n == 1 then State(UNPAID, [Entering, Looking], [])
    else if n == 2 then State(UNPAID, [Entering, Entering], [])
    else if n == 3 then State(UNPAID, [Writing(None), Entering], [])
    else if n == 4 then State(UNPAID, [Recording(PAYMENT), Entering], [])
    else if n == 5 then State(UNPAID, [Committing(PAYMENT), Entering], [])
    else if n == 6 then State(SETTLED, [Finished(Answered(Applied)), Entering], [0])
    else if n == 7 then State(SETTLED, [Finished(Answered(Applied)), Writing(Some(PAID))], [0])
    else State(SETTLED, [Finished(Answered(Applied)), Finished(Answered(Thrown(ConstraintViolation)))], [0, 1])
  }

  lemma RaceStep(n: nat)
    requires n < 8
    ensures CanStep(RACERS, true, RaceState(n), RACE[n])
    ensures Step(RACERS, true, RaceState(n), RACE[n]) == RaceState(n + 1)
  {
    assert RACE[n] == if n in {1, 6, 7} then 1 else 0;
    if n == 5 {
      assert Committed(UNPAID, RACED, PAYMENT) == SETTLED;
    }
  }

  lemma {:induction false} RaceReaches(n: nat)
    requires n <= 8
    ensures Run(RACERS, true, Start(UNPAID, RACERS), RACE[..n]) == RaceState(n)
  {
    if n == 0 {
      assert Start(UNPAID, RACERS).phases == [Looking, Looking];
    } else {
      RaceReaches(n - 1);
      RaceStep(n - 1);
      assert RACE[..n][..n - 1] == RACE[..n - 1];
      hide CanStep, Step, RaceState;
    }
  }

  /** The excepted case happens: the second, with a clock before the row's creation, aborts on the CHECK. */
  lemma EarlyLoserAborts()
    ensures Run(RACERS, true, Start(UNPAID, RACERS), RACE).phases
         == [Finished(Answered(Applied)), Finished(Answered(Thrown(ConstraintViolation)))]
  {
    RaceReaches(8);
    assert RACE[..8] == RACE;
    hide Run;
  }
}
