/**
 * The read-only staging inspection: one client, one transaction, and cleanup that must be right wherever
 * a fault strikes.
 */
module StagingInspection {
  import opened Prelude

  /** A thrown value; JavaScript can throw `undefined`, which the final checks cannot tell from no error. */
  datatype Thrown = Undefined | Defined(message: string)

  datatype Stage = Connect | Begin | SetTimeout | Check | Commit | Rollback | Release | EndPool

  /** An attempted stage and whether it came back without an error. */
  datatype Attempt = Attempt(stage: Stage, ok: bool)

  /** What each stage throws, if it is reached. The checks are the hook, the schema and the two counts. */
  type Faults = map<Stage, Thrown>

  datatype Outcome = Completed | Failed(error: Thrown) | NoResult

  // ---- Reading a trace ----------------------------------------------------

  function Times(trace: seq<Attempt>, stage: Stage): nat {
    if trace == [] then 0
    else Times(trace[..|trace| - 1], stage) + if trace[|trace| - 1].stage == stage then 1 else 0
  }

  predicate Succeeded(trace: seq<Attempt>, stage: Stage) {
    Attempt(stage, true) in trace
  }

  predicate Tried(trace: seq<Attempt>, stage: Stage) {
    exists i :: 0 <= i < |trace| && trace[i].stage == stage
  }

  /** Every attempt of `first` comes before every attempt of `second`. */
  predicate Precedes(trace: seq<Attempt>, first: Stage, second: Stage) {
    forall i, j :: 0 <= i < |trace| && 0 <= j < |trace| && trace[i].stage == first && trace[j].stage == second ==> i < j
  }

  /** A transaction was begun and its commit did not come back. */
  predicate LeftOpen(trace: seq<Attempt>) {
    Succeeded(trace, Begin) && !Succeeded(trace, Commit)
  }

  /** The first error that is not `undefined`, of those given. */
  function FirstDefined(errors: seq<Option<Thrown>>): Option<Thrown> {
    if errors == [] then None
    else if errors[0].Some? && errors[0].value.Defined? then errors[0]
    else FirstDefined(errors[1..])
  }

  function Fault(faults: Faults, stage: Stage): Option<Thrown> {
    if stage in faults then Some(faults[stage]) else None
  }

  // ---- What must happen ---------------------------------------------------

  function AttemptOf(faults: Faults, stage: Stage): Attempt {
    Attempt(stage, Fault(faults, stage).None?)
  }

  /** The body attempts its stages in order, up to the first that faults. */
  function BodyTrace(faults: Faults): seq<Attempt> {
    if Connect in faults then
      [Attempt(Connect, false)]
    else if Begin in faults then
      [Attempt(Connect, true), Attempt(Begin, false)]
    else if SetTimeout in faults then
      [Attempt(Connect, true), Attempt(Begin, true), Attempt(SetTimeout, false)]
    else if Check in faults then
      [Attempt(Connect, true), Attempt(Begin, true), Attempt(SetTimeout, true), Attempt(Check, false)]
    else
      [Attempt(Connect, true), Attempt(Begin, true), Attempt(SetTimeout, true), Attempt(Check, true),
       AttemptOf(faults, Commit)]
  }

  function BodyFault(faults: Faults): Option<Thrown> {
    if Connect in faults then Fault(faults, Connect)
    else if Begin in faults then Fault(faults, Begin)
    else if SetTimeout in faults then Fault(faults, SetTimeout)
    else if Check in faults then Fault(faults, Check)
    else Fault(faults, Commit)
  }

  function TraceOf(faults: Faults): seq<Attempt> {
    var body := BodyTrace(faults);
    body
    + (if LeftOpen(body) then [AttemptOf(faults, Rollback)] else [])
    + (if Succeeded(body, Connect) then [AttemptOf(faults, Release)] else [])
    + [AttemptOf(faults, EndPool)]
  }

  function ReleaseFault(faults: Faults): Option<Thrown> {
    if Connect in faults then None else Fault(faults, Release)
  }

  /** The surfaced error is the first that is defined; without one, a result exists only if the body committed. */
  function OutcomeOf(faults: Faults): Outcome {
    match FirstDefined([BodyFault(faults), ReleaseFault(faults), Fault(faults, EndPool)])
    case Some(error) => Failed(error)
    case None => if BodyFault(faults).None? then Completed else NoResult
  }

  lemma {:induction false} TimesAppend(a: seq<Attempt>, b: seq<Attempt>, stage: Stage)
    ensures Times(a + b, stage) == Times(a, stage) + Times(b, stage)
  {
    if b == [] {
      assert a + b == a;
    } else {
      assert (a + b)[..|a + b| - 1] == a + b[..|b| - 1];
      TimesAppend(a, b[..|b| - 1], stage);
    }
  }

  lemma TimesOfOne(x: Attempt, stage: Stage)
    ensures Times([x], stage) == if x.stage == stage then 1 else 0
  {
    assert [x][..0] == [];
  }

  lemma {:induction false} TimesNone(trace: seq<Attempt>, stage: Stage)
    requires !Tried(trace, stage)
    ensures Times(trace, stage) == 0
  {
    if trace != [] {
      assert forall i :: 0 <= i < |trace| - 1 ==> trace[..|trace| - 1][i] == trace[i];
      TimesNone(trace[..|trace| - 1], stage);
    }
  }

  lemma CleanupTimes(body: seq<Attempt>, r: seq<Attempt>, l: seq<Attempt>, end: Attempt, stage: Stage)
    requires !Tried(body, stage)
    ensures Times(body + r + l + [end], stage) == Times(r, stage) + Times(l, stage) + Times([end], stage)
  {
    TimesNone(body, stage);
    TimesAppend(body, r, stage);
    TimesAppend(body + r, l, stage);
    TimesAppend(body + r + l, [end], stage);
  }

  function RollbackPart(faults: Faults): seq<Attempt> {
    if LeftOpen(BodyTrace(faults)) then [AttemptOf(faults, Rollback)] else []
  }

  function ReleasePart(faults: Faults): seq<Attempt> {
    if Succeeded(BodyTrace(faults), Connect) then [AttemptOf(faults, Release)] else []
  }

  lemma BodyStages(faults: Faults)
    ensures var body := BodyTrace(faults);
      && !Tried(body, Rollback) && !Tried(body, Release) && !Tried(body, EndPool)
      && (Succeeded(body, Commit) <==> BodyFault(faults).None?)
  {
  }

  lemma TraceMembers(faults: Faults, x: Attempt)
    ensures x in TraceOf(faults) <==>
      x in BodyTrace(faults) || x in RollbackPart(faults) || x in ReleasePart(faults) || x == AttemptOf(faults, EndPool)
  {
    hide BodyTrace;
  }

  /** Cleanup adds no attempt of a body stage, so the whole trace and the body agree on what succeeded. */
  lemma TraceSucceeded(faults: Faults, stage: Stage)
    requires stage in {Connect, Begin, Commit}
    ensures Succeeded(TraceOf(faults), stage) <==> Succeeded(BodyTrace(faults), stage)
  {
    TraceMembers(faults, Attempt(stage, true));
    hide BodyTrace, TraceOf;
  }

  lemma CleanupCounts(faults: Faults, stage: Stage)
    requires stage in {Rollback, Release, EndPool}
    ensures Times(TraceOf(faults), stage) ==
      if stage == Rollback then |RollbackPart(faults)| else if stage == Release then |ReleasePart(faults)| else 1
  {
    BodyStages(faults);
    var body, r, l := BodyTrace(faults), RollbackPart(faults), ReleasePart(faults);
    hide BodyTrace;
    CleanupTimes(body, r, l, AttemptOf(faults, EndPool), stage);
    TimesOfOne(AttemptOf(faults, Rollback), stage);
    TimesOfOne(AttemptOf(faults, Release), stage);
    TimesOfOne(AttemptOf(faults, EndPool), stage);
  }

  lemma CleanupOrder(faults: Faults)
    ensures var trace := TraceOf(faults);
      && trace[|trace| - 1].stage == EndPool
      && Precedes(trace, Rollback, Release) && Precedes(trace, Commit, Release) && Precedes(trace, Commit, Rollback)
  {
    BodyStages(faults);
    var body, r, l, trace := BodyTrace(faults), RollbackPart(faults), ReleasePart(faults), TraceOf(faults);
    assert trace == body + r + l + [AttemptOf(faults, EndPool)];
    forall i | 0 <= i < |trace|
      ensures trace[i].stage == Commit ==> i < |body|
      ensures trace[i].stage == Rollback ==> |body| <= i < |body| + |r|
      ensures trace[i].stage == Release ==> |body| + |r| <= i
    {
      assert i < |body| ==> trace[i] == body[i];
    }
    hide BodyTrace, TraceOf;
  }

  /**
   * For every placement of faults: a rollback exactly when a transaction was begun and not committed, one
   * release exactly when a client was acquired, one end of the pool, last of all, and each in its order.
   */
  lemma CleanupIsRight(faults: Faults)
    ensures var trace := TraceOf(faults);
      && Times(trace, Rollback)
           == (if Attempt(Begin, true) in trace && Attempt(Commit, true) !in trace then 1 else 0)
      && Times(trace, Release) == (if Attempt(Connect, true) in trace then 1 else 0)
      && Times(trace, EndPool) == 1 && trace[|trace| - 1].stage == EndPool
      && Precedes(trace, Rollback, Release) && Precedes(trace, Commit, Release) && Precedes(trace, Commit, Rollback)
  {
    CleanupOrder(faults);
    CleanupCounts(faults, Rollback);
    CleanupCounts(faults, Release);
    CleanupCounts(faults, EndPool);
    TraceSucceeded(faults, Connect);
    TraceSucceeded(faults, Begin);
    TraceSucceeded(faults, Commit);
    hide BodyTrace, TraceOf, Times;
  }

  // ---- The body -----------------------------------------------------------

  const BODY := {Connect, Begin, SetTimeout, Check, Commit}
  const ORDER := [Connect, Begin, SetTimeout, Check, Commit]

  /** The stage that a stage of the body waits for. */
  function Before(stage: Stage): Option<Stage> {
    match stage
    case Begin => Some(Connect)
    case SetTimeout => Some(Begin)
    case Check => Some(SetTimeout)
    case Commit => Some(Check)
    case _ => None
  }

  /** Attempted when its turn came, once, after the stage it waits for, and successful unless it faults. */
  predicate InTurn(faults: Faults, trace: seq<Attempt>, stage: Stage) {
    && (Tried(trace, stage) <==> (Before(stage).Some? ==> Succeeded(trace, Before(stage).value)))
    && (Succeeded(trace, stage) <==> Tried(trace, stage) && stage !in faults)
    && (Before(stage).Some? ==> Precedes(trace, Before(stage).value, stage))
    && (forall i, j :: 0 <= i < j < |trace| ==> !(trace[i].stage == stage && trace[j].stage == stage))
  }

  /** The first `n` attempts are of the body: in order, and successful but for the last of fewer than five. */
  ghost predicate Shaped(faults: Faults, trace: seq<Attempt>, n: nat) {
    && 1 <= n <= 5 && n <= |trace|
    && (forall i :: 0 <= i < n ==> trace[i] == AttemptOf(faults, ORDER[i]))
    && (forall i :: 0 <= i < n - 1 ==> trace[i].ok)
    && (n < 5 ==> !trace[n - 1].ok)
    && (forall i :: n <= i < |trace| ==> trace[i].stage !in BODY)
  }

  lemma TraceShaped(faults: Faults)
    ensures Shaped(faults, TraceOf(faults), |BodyTrace(faults)|)
  {
    var body, trace := BodyTrace(faults), TraceOf(faults);
    assert Shaped(faults, body, |body|);
    CleanupStages(faults);
    hide BodyTrace, TraceOf, AttemptOf;
    assert forall i :: 0 <= i < |body| ==> trace[i] == body[i];
  }

  lemma AttemptsOf(faults: Faults, trace: seq<Attempt>, n: nat, p: nat)
    requires Shaped(faults, trace, n) && p < 5
    ensures forall i :: 0 <= i < |trace| ==> (trace[i].stage == ORDER[p] <==> i == p < n)
    ensures Tried(trace, ORDER[p]) <==> p < n
    ensures Succeeded(trace, ORDER[p]) <==> p < n && ORDER[p] !in faults
    ensures 0 < n && (p < 4 ==> (Succeeded(trace, ORDER[p]) <==> p + 1 < n))
  {
    assert ORDER[p] in BODY;
    assert forall i :: 0 <= i < n ==> trace[i].stage == ORDER[i];
    if p < n { assert trace[p].stage == ORDER[p]; }
  }

  /** Every stage of the body is attempted exactly when all before it have succeeded. */
  lemma BodyExactly(faults: Faults, stage: Stage)
    requires stage in BODY
    ensures InTurn(faults, TraceOf(faults), stage)
  {
    hide BodyTrace, TraceOf, Shaped, Tried, Succeeded, AttemptOf;
    var n, trace := |BodyTrace(faults)|, TraceOf(faults);
    TraceShaped(faults);
    var p := match stage case Connect => 0 case Begin => 1 case SetTimeout => 2 case Check => 3 case _ => 4;
    AttemptsOf(faults, trace, n, p);
    if p > 0 {
      AttemptsOf(faults, trace, n, p - 1);
      assert Before(stage) == Some(ORDER[p - 1]);
    }
  }

  /** Beyond the body the trace has only stages of the cleanup. */
  lemma CleanupStages(faults: Faults)
    ensures var body, trace := BodyTrace(faults), TraceOf(faults);
      && body <= trace
      && forall i :: |body| <= i < |trace| ==> trace[i].stage !in BODY
  {
    hide BodyTrace;
  }

  /** The error that a body stage's failed attempt shows, and the release's, where there is a client to release. */
  lemma FaultsShow(faults: Faults, e: Thrown)
    ensures BodyFault(faults) == Some(e) <==>
      exists stage <- BODY :: Attempt(stage, false) in TraceOf(faults) && stage in faults && faults[stage] == e
    ensures ReleaseFault(faults) == Some(e) <==>
      Succeeded(TraceOf(faults), Connect) && Release in faults && faults[Release] == e
  {
    TraceSucceeded(faults, Connect);
    CleanupStages(faults);
    var body, trace := BodyTrace(faults), TraceOf(faults);
    forall stage | stage in BODY ensures Attempt(stage, false) in trace <==> Attempt(stage, false) in body {}
    hide TraceOf;
  }

  /** Nothing thrown, or `undefined` thrown: the final checks see no difference. */
  predicate Unseen(error: Option<Thrown>) {
    error.None? || error.value.Undefined?
  }

  /**
   * A result is returned exactly when the transaction committed and neither release nor pool end threw a
   * defined error; otherwise the error is the body's, else the release's, else the pool's, of the defined ones.
   */
  lemma OutcomeExactly(faults: Faults)
    ensures var body, release, end := BodyFault(faults), ReleaseFault(faults), Fault(faults, EndPool);
      && (OutcomeOf(faults) == Completed <==> Succeeded(TraceOf(faults), Commit) && Unseen(release) && Unseen(end))
      && (forall e: Thrown :: OutcomeOf(faults) == Failed(e) <==>
            && e.Defined?
            && (body == Some(e) || (Unseen(body) && (release == Some(e) || (Unseen(release) && end == Some(e))))))
      && (body.None? <==> Succeeded(TraceOf(faults), Commit))
  {
    TraceSucceeded(faults, Commit);
    BodyStages(faults);
    hide BodyTrace, BodyFault, TraceOf;
    var body, release, end := BodyFault(faults), ReleaseFault(faults), Fault(faults, EndPool);
    FirstOfThree(body, release, end);
    hide FirstDefined;
  }

  /**
   * What an `undefined` hides: a failed release behind a result, a failed check behind the error of the
   * pool, and a failed check with nothing else behind the mere absence of a result.
   */
  lemma UndefinedIsInvisible()
    ensures OutcomeOf(map[Release := Undefined]) == Completed
    ensures OutcomeOf(map[Check := Undefined, EndPool := Defined("pool")]) == Failed(Defined("pool"))
    ensures OutcomeOf(map[Check := Undefined]) == NoResult
  {
    FirstOfThree(None, Some(Undefined), None);
    FirstOfThree(Some(Undefined), None, Some(Defined("pool")));
    FirstOfThree(Some(Undefined), None, None);
  }

  lemma FirstOfThree(a: Option<Thrown>, b: Option<Thrown>, c: Option<Thrown>)
    ensures FirstDefined([a, b, c]) ==
      if !Unseen(a) then a else if !Unseen(b) then b else if !Unseen(c) then c else None
  {
    assert [a, b, c][1..] == [b, c] && [b, c][1..] == [c] && [c][1..] == [];
    assert FirstDefined([c]) == if Unseen(c) then None else c;
    assert FirstDefined([b, c]) == if Unseen(b) then FirstDefined([c]) else b;
  }

  // ---- The run ------------------------------------------------------------

  /** A pool of one client, recording what is asked of it; each stage throws as the faults say. */
  class Inspection {
    const faults: Faults
    var trace: seq<Attempt>

    constructor (faults: Faults)
      ensures this.faults == faults && trace == []
    {
      this.faults := faults;
      trace := [];
    }

    method Do(stage: Stage) returns (error: Option<Thrown>)
      modifies this
      ensures error == Fault(faults, stage)
      ensures trace == old(trace) + [AttemptOf(faults, stage)]
    {
      error := if stage in faults then Some(faults[stage]) else None;
      trace := trace + [Attempt(stage, error.None?)];
    }

    /** The stages of the `try` block, with the two flags that the cleanup goes by. */
    method RunBody() returns (error: Option<Thrown>, clientAcquired: bool, transactionStarted: bool)
      requires trace == []
      modifies this
      ensures error == BodyFault(faults) && trace == BodyTrace(faults)
      ensures clientAcquired == Succeeded(trace, Connect) && transactionStarted == LeftOpen(trace)
    {
      clientAcquired, transactionStarted := false, false;
      error := Do(Connect);
      if error.Some? {
        return;
      }
      clientAcquired := true;
      error := Do(Begin);
      if error.Some? {
        return;
      }
      transactionStarted := true;
      error := Do(SetTimeout);
      if error.Some? {
        return;
      }
      error := Do(Check);
      if error.Some? {
        return;
      }
      error := Do(Commit);
      if error.Some? {
        return;
      }
      transactionStarted := false;
    }

    method RunStagingInspection() returns (outcome: Outcome)
      requires trace == []
      modifies this
      ensures trace == TraceOf(faults) && outcome == OutcomeOf(faults)
    {
      var originalError, clientAcquired, transactionStarted := RunBody();
      if originalError.Some? && transactionStarted {
        // A failure to roll back is logged and swallowed.
        var rollbackError := Do(Rollback);
      }
      var releaseError: Option<Thrown> := None;
      if clientAcquired {
        releaseError := Do(Release);
      }
      var poolEndError := Do(EndPool);
      FirstOfThree(originalError, ReleaseFault(faults), poolEndError);
      BodyStages(faults);
      hide BodyTrace, BodyFault, FirstDefined;
      if !Unseen(originalError) {
        return Failed(originalError.value);
      }
      if !Unseen(releaseError) {
        return Failed(releaseError.value);
      }
      if !Unseen(poolEndError) {
        return Failed(poolEndError.value);
      }
      return if originalError.None? then Completed else NoResult;
    }
  }
}
