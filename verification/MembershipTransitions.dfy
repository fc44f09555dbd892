/**
 * The membership entitlement of an account and the transitions that change it. Each transition is keyed
 * by its source event: the ledger row, the entitlement row and their constraints commit together.
 */
module MembershipTransitions {
  import opened Prelude

  type Id = string

  /** Milliseconds since the epoch; every writer supplies whole milliseconds. */
  type Time = int

  datatype Status = Inactive | Active | Cancelling | Expired | PaidPendingBinding | Suspended
  datatype Source = TestFixture | Stripe | GooglePlay | Admin

  datatype Entitlement = Entitlement(
    status: Status,
    accessUntil: Option<Time>,
    cancelAtPeriodEnd: bool,
    source: Source,
    customer: Option<string>,
    subscription: Option<string>,
    activatedAt: Option<Time>,
    cancellationRequestedAt: Option<Time>,
    expiredAt: Option<Time>,
    createdAt: Time,
    updatedAt: Time,
    version: nat)

  datatype Kind = Activate | ScheduleCancellation | Expire | Reactivate | Suspend

  /** The normalized input of a transition. Its digest is taken to be injective, so it stands for the digest. */
  datatype Input = Input(
    source: Source,
    eventId: string,
    kind: Kind,
    account: Id,
    effectiveAt: Time,
    accessUntil: Option<Time>,
    customer: Option<string>,
    subscription: Option<string>,
    cancelAtPeriodEnd: Option<bool>)

  datatype Key = Key(source: Source, eventId: string)
  datatype Recorded = RecordedApplied | RecordedRejected | RecordedStale
  datatype Entry = Entry(payload: Input, result: Recorded)

  /** `accounts` maps an account to whether it is closed; an account has one entitlement row at most. */
  datatype Store = Store(accounts: map<Id, bool>, rows: map<Id, Entitlement>, ledger: map<Key, Entry>)

  datatype Outcome =
    | Applied
    | Replayed
    | Rejected(reason: string)
    | StaleEvent(reason: string)
    | Thrown(error: Error)
  datatype Error = AccountNotFound | SourceNotAllowed | ConstraintViolation

  // ---- Row constraints ----------------------------------------------------

  /** The CHECK that ties the status to the other columns. */
  predicate StateCheck(e: Entitlement) {
    match e.status
    case Inactive => e.accessUntil.None? && !e.cancelAtPeriodEnd
    case Active => e.accessUntil.Some? && !e.cancelAtPeriodEnd && e.activatedAt.Some? && e.expiredAt.None?
    case Cancelling =>
      e.accessUntil.Some? && e.cancelAtPeriodEnd && e.cancellationRequestedAt.Some? && e.expiredAt.None?
    case Expired => e.accessUntil.Some? && !e.cancelAtPeriodEnd && e.expiredAt.Some?
    case PaidPendingBinding =>
      e.accessUntil.Some? && !e.cancelAtPeriodEnd && e.activatedAt.None?
      && e.cancellationRequestedAt.None? && e.expiredAt.None?
    case Suspended => e.accessUntil.Some? && e.expiredAt.None?
  }

  predicate RowCheck(e: Entitlement) {
    StateCheck(e) && e.version >= 1 && e.updatedAt >= e.createdAt
  }

  /** Two Stripe rows never name the same subscription. */
  predicate Clashes(rows: map<Id, Entitlement>, account: Id, e: Entitlement) {
    && e.source == Stripe && e.subscription.Some?
    && exists a <- rows :: a != account && rows[a].source == Stripe && rows[a].subscription == e.subscription
  }

  ghost predicate SubscriptionsUnique(rows: map<Id, Entitlement>) {
    forall a <- rows :: !Clashes(rows, a, rows[a])
  }

  // ---- The five transitions -----------------------------------------------

  datatype Validation = Apply | Reject(reason: string) | Stale(reason: string)

  predicate Earlier(t: Time, limit: Option<Time>) {
    limit.Some? && t < limit.value
  }

  function ValidateActivate(closed: bool, row: Option<Entitlement>, input: Input): Validation {
    if closed then Reject("account_closed")
    else if input.accessUntil.None? then Reject("access_until_required")
    else if input.accessUntil.value <= input.effectiveAt then Reject("access_until_must_exceed_effective_at")
    else if row.None? then Apply
    else if row.value.status == Active then
      if row.value.accessUntil.None? then Reject("active_missing_access_until")
      else if input.accessUntil.value < row.value.accessUntil.value then Stale("would_reduce_access_until")
      else if input.effectiveAt < row.value.updatedAt then Stale("older_event_overrides_newer_state")
      else Apply
    else if row.value.status in {Inactive, Expired, Cancelling} then Apply
    else Reject("invalid_status_for_activate")
  }

  function ValidateSchedule(row: Option<Entitlement>, input: Input): Validation {
    if row.None? || row.value.status != Active then Reject("not_active")
    else if !Earlier(input.effectiveAt, row.value.accessUntil) then Reject("not_temporally_active")
    else if Earlier(input.effectiveAt, row.value.cancellationRequestedAt) then Stale("older_cancellation_event")
    else Apply
  }

  function ValidateReactivate(row: Option<Entitlement>, input: Input): Validation {
    if row.None? || row.value.status != Cancelling then Reject("not_cancelling")
    else if !Earlier(input.effectiveAt, row.value.accessUntil) then Reject("not_temporally_active")
    else if Earlier(input.effectiveAt, row.value.cancellationRequestedAt) then Stale("older_reactivation_event")
    else Apply
  }

  function ValidateExpire(row: Option<Entitlement>, input: Input): Validation {
    if row.None? || row.value.status !in {Active, Cancelling} then Reject("not_active_or_cancelling")
    else if row.value.accessUntil.None? || Earlier(input.effectiveAt, row.value.accessUntil) then
      Reject("expire_too_early")
    else if Earlier(input.effectiveAt, row.value.expiredAt) then Stale("older_expire_event")
    else Apply
  }

  function ValidateSuspend(row: Option<Entitlement>): Validation {
    if row.None? || row.value.status !in {Active, Cancelling} then Reject("not_suspendable") else Apply
  }

  function Validate(closed: bool, row: Option<Entitlement>, input: Input): Validation {
    match input.kind
    case Activate => ValidateActivate(closed, row, input)
    case ScheduleCancellation => ValidateSchedule(row, input)
    case Reactivate => ValidateReactivate(row, input)
    case Expire => ValidateExpire(row, input)
    case Suspend => ValidateSuspend(row)
  }

  function OrElse<T>(a: Option<T>, b: Option<T>): Option<T> {
    if a.Some? then a else b
  }

  /** The row that an applied transition writes. */
  function Mutate(closed: bool, row: Option<Entitlement>, input: Input, processedAt: Time): Entitlement
    requires Validate(closed, row, input) == Apply
  {
    match input.kind
    case Activate =>
      Entitlement(
        Active, input.accessUntil, false, input.source,
        OrElse(input.customer, if row.Some? then row.value.customer else None),
        OrElse(input.subscription, if row.Some? then row.value.subscription else None),
        Some(input.effectiveAt), None, None,
        if row.Some? then row.value.createdAt else processedAt, processedAt,
        (if row.Some? then row.value.version else 0) + 1)
    case ScheduleCancellation =>
      row.value.(status := Cancelling, cancelAtPeriodEnd := true, cancellationRequestedAt := Some(input.effectiveAt),
                 expiredAt := None, updatedAt := processedAt, version := row.value.version + 1)
    case Reactivate =>
      row.value.(status := Active, cancelAtPeriodEnd := false, cancellationRequestedAt := None,
                 expiredAt := None, updatedAt := processedAt, version := row.value.version + 1)
    case Expire =>
      row.value.(status := Expired, cancelAtPeriodEnd := false, cancellationRequestedAt := None,
                 expiredAt := Some(input.effectiveAt), updatedAt := processedAt, version := row.value.version + 1)
    case Suspend =>
      row.value.(status := Suspended, updatedAt := processedAt, version := row.value.version + 1)
  }

  // ---- One transition -----------------------------------------------------

  function KeyOf(input: Input): Key {
    Key(input.source, input.eventId)
  }

  function RowOf(s: Store, account: Id): Option<Entitlement> {
    if account in s.rows then Some(s.rows[account]) else None
  }

  function Record(s: Store, input: Input, result: Recorded): Store {
    s.(ledger := s.ledger[KeyOf(input) := Entry(input, result)])
  }

  /** An event already in the ledger changes nothing: the digests are compared, and that is the answer. */
  function Existing(s: Store, input: Input): Outcome
    requires KeyOf(input) in s.ledger
  {
    if s.ledger[KeyOf(input)].payload == input then Replayed else Rejected("payload_hash_mismatch")
  }

  /** The body for an event that the ledger did not hold when it was looked up. */
  function Fresh(s: Store, input: Input, processedAt: Time): (Store, Outcome) {
    if input.account !in s.accounts then
      (s, Thrown(AccountNotFound))
    else
      var closed, row := s.accounts[input.account], RowOf(s, input.account);
      match Validate(closed, row, input)
      case Reject(reason) => (Record(s, input, RecordedRejected), Rejected(reason))
      case Stale(reason) => (Record(s, input, RecordedStale), StaleEvent(reason))
      case Apply =>
        var e := Mutate(closed, row, input, processedAt);
        if !RowCheck(e) || Clashes(s.rows, input.account, e) then
          (s, Thrown(ConstraintViolation))
        else
          (Record(s.(rows := s.rows[input.account := e]), input, RecordedApplied), Applied)
  }

  function Transition(s: Store, input: Input, processedAt: Time, production: bool): (Store, Outcome) {
    if input.source == TestFixture && production then (s, Thrown(SourceNotAllowed))
    else if KeyOf(input) in s.ledger then (s, Existing(s, input))
    else Fresh(s, input, processedAt)
  }

  // ---- What every transition keeps ----------------------------------------

  /** Rows that the transitions themselves produce remember their activation while cancelling. */
  predicate RowInv(e: Entitlement) {
    RowCheck(e) && (e.status == Cancelling ==> e.activatedAt.Some?)
  }

  ghost predicate Inv(s: Store) {
    && (forall a <- s.rows :: RowInv(s.rows[a]))
    && SubscriptionsUnique(s.rows)
  }

  /** From a row that satisfies the CHECK, the written row fails it in exactly one case. */
  lemma WriteKeepsCheckExactly(closed: bool, row: Option<Entitlement>, input: Input, processedAt: Time)
    requires Validate(closed, row, input) == Apply && (row.Some? ==> StateCheck(row.value))
    ensures StateCheck(Mutate(closed, row, input, processedAt))
       <==> !(input.kind == Reactivate && row.value.activatedAt.None?)
  {
  }

  /** Such a row satisfies every constraint, and reactivating it aborts. */
  lemma UnactivatedCancellingRowCannotReactivate()
    ensures var e := Entitlement(Cancelling, Some(10), true, Stripe, None, None, None, Some(1), None, 0, 0, 1);
      var s := Store(map["a" := false], map["a" := e], map[]);
      && RowCheck(e)
      && Transition(s, Input(Stripe, "evt", Reactivate, "a", 5, None, None, None, Some(false)), 5, true)
           == (s, Thrown(ConstraintViolation))
  {
  }

  lemma MutateKeepsRowInv(closed: bool, row: Option<Entitlement>, input: Input, processedAt: Time)
    requires Validate(closed, row, input) == Apply && (row.Some? ==> RowInv(row.value))
    ensures var e := Mutate(closed, row, input, processedAt);
      && (RowInv(e) <==> row.None? || processedAt >= row.value.createdAt)
      && (RowCheck(e) <==> RowInv(e))
      && e.version == (if row.Some? then row.value.version else 0) + 1
  {
  }

  lemma WriteKeepsUnique(rows: map<Id, Entitlement>, account: Id, e: Entitlement)
    requires SubscriptionsUnique(rows) && !Clashes(rows, account, e)
    ensures SubscriptionsUnique(rows[account := e])
  {
    var after := rows[account := e];
    forall a <- after ensures !Clashes(after, a, after[a]) {
      if a != account {
        assert !Clashes(rows, a, rows[a]);
      }
    }
  }

  lemma TransitionKeepsInv(s: Store, input: Input, processedAt: Time, production: bool)
    requires Inv(s)
    ensures Inv(Transition(s, input, processedAt, production).0)
  {
    if input.account in s.accounts {
      var closed, row := s.accounts[input.account], RowOf(s, input.account);
      if Validate(closed, row, input) == Apply {
        var e := Mutate(closed, row, input, processedAt);
        MutateKeepsRowInv(closed, row, input, processedAt);
        if !Clashes(s.rows, input.account, e) {
          WriteKeepsUnique(s.rows, input.account, e);
        }
      }
    }
  }

  /** The database refuses a valid transition only for a clock before the row's creation or a taken subscription. */
  lemma AbortsExactly(s: Store, input: Input, processedAt: Time, production: bool)
    requires Inv(s) && input.account in s.accounts
    requires KeyOf(input) !in s.ledger && !(input.source == TestFixture && production)
    ensures var closed, row := s.accounts[input.account], RowOf(s, input.account);
      Transition(s, input, processedAt, production).1 == Thrown(ConstraintViolation) <==>
        && Validate(closed, row, input) == Apply
        && ((row.Some? && processedAt < row.value.createdAt)
            || Clashes(s.rows, input.account, Mutate(closed, row, input, processedAt)))
  {
    var closed, row := s.accounts[input.account], RowOf(s, input.account);
    if Validate(closed, row, input) == Apply {
      MutateKeepsRowInv(closed, row, input, processedAt);
    }
  }

  /** Rows change only with the outcome `Applied`, only for the named account, by one version, and are recorded. */
  lemma TransitionEffect(s: Store, input: Input, processedAt: Time, production: bool)
    ensures var (after, out) := Transition(s, input, processedAt, production);
      && after.accounts == s.accounts
      && (forall k <- s.ledger :: k in after.ledger && after.ledger[k] == s.ledger[k])
      && after.ledger.Keys == s.ledger.Keys + (if after == s then {} else {KeyOf(input)})
      && (out == Applied <==> after.rows != s.rows)
      && (after.rows != s.rows ==>
            && KeyOf(input) !in s.ledger && after.ledger[KeyOf(input)] == Entry(input, RecordedApplied)
            && input.account in after.rows
            && after.rows == s.rows[input.account := after.rows[input.account]]
            && after.rows[input.account].version ==
                 (if input.account in s.rows then s.rows[input.account].version else 0) + 1)
  {
    if KeyOf(input) !in s.ledger && input.account in s.accounts {
      var closed, row := s.accounts[input.account], RowOf(s, input.account);
      if Validate(closed, row, input) == Apply {
        var e := Mutate(closed, row, input, processedAt);
        assert row.Some? ==> e.version != row.value.version;
        assert KeyOf(input) !in s.ledger;
        if input.account in s.rows { assert s.rows[input.account := e][input.account] != s.rows[input.account]; }
      }
    }
  }

  // ---- Repeated and reversed transitions ----------------------------------

  /** Copies of one transition, run one after another, each at its own clock. */
  function Copies(s: Store, input: Input, clocks: seq<Time>, production: bool): (r: (Store, seq<Outcome>))
    ensures |r.1| == |clocks|
  {
    if clocks == [] then
      (s, [])
    else
      var (before, outs) := Copies(s, input, clocks[..|clocks| - 1], production);
      var (after, out) := Transition(before, input, clocks[|clocks| - 1], production);
      (after, outs + [out])
  }

  /** Once a copy has answered, every later copy is a replay, and the tables stay as that copy left them. */
  lemma {:induction false} CopiesReplay(s: Store, input: Input, clocks: seq<Time>, production: bool, i: nat)
    requires KeyOf(input) !in s.ledger && i < |clocks| && !Copies(s, input, clocks, production).1[i].Thrown?
    ensures var (after, outs) := Copies(s, input, clocks, production);
      && KeyOf(input) in after.ledger && after.ledger[KeyOf(input)].payload == input
      && after == Copies(s, input, clocks[..i + 1], production).0
      && (forall j :: i < j < |clocks| ==> outs[j] == Replayed)
      && !(input.source == TestFixture && production)
  {
    var n := |clocks| - 1;
    var (before, outs) := Copies(s, input, clocks[..n], production);
    if i < n {
      CopiesReplay(s, input, clocks[..n], production, i);
      assert clocks[..n][..i + 1] == clocks[..i + 1];
      hide Validate, Mutate, Clashes;
    } else {
      assert clocks[..i + 1] == clocks;
      LedgerOfCopies(s, input, clocks[..n], production);
      hide Validate, Mutate, Clashes;
    }
  }

  lemma {:induction false} LedgerOfCopies(s: Store, input: Input, clocks: seq<Time>, production: bool)
    requires KeyOf(input) !in s.ledger
    ensures var after := Copies(s, input, clocks, production).0;
      KeyOf(input) in after.ledger ==> after.ledger[KeyOf(input)].payload == input
  {
    if clocks != [] {
      LedgerOfCopies(s, input, clocks[..|clocks| - 1], production);
      hide Validate, Mutate, Clashes;
    }
  }

  /** What was applied once is refused on its own result, unless it is an activation. */
  lemma AppliedThenRefused(closed: bool, row: Option<Entitlement>, input: Input, at: Time)
    requires Validate(closed, row, input) == Apply && input.kind != Activate
    ensures Validate(closed, Some(Mutate(closed, row, input, at)), input).Reject?
  {
  }

  /** On its own result an activation is valid again if its row was not written after it took effect. */
  lemma ActivatedTwice(closed: bool, row: Option<Entitlement>, input: Input, at: Time)
    requires Validate(closed, row, input) == Apply && input.kind == Activate
    ensures Validate(closed, Some(Mutate(closed, row, input, at)), input) == Apply <==> at <= input.effectiveAt
  {
  }

  /**
   * A transition that missed its event in the ledger and works on the state that an identical one has left:
   * it runs into an error before it reaches the ledger in one case only, an activation at a clock before the
   * row's creation that still finds itself valid.
   */
  lemma RacedTransitionExactly(s: Store, input: Input, winner: Time, loser: Time, production: bool)
    requires Inv(s) && KeyOf(input) !in s.ledger && !Transition(s, input, winner, production).1.Thrown?
    ensures var (after, out) := Transition(s, input, winner, production);
      var late := Fresh(after, input, loser).1;
      && (late.Thrown? <==>
            && input.kind == Activate && out == Applied
            && loser < after.rows[input.account].createdAt && winner <= input.effectiveAt)
      && (late.Thrown? ==> late == Thrown(ConstraintViolation))
  {
    var (after, out) := Transition(s, input, winner, production);
    var closed, row := s.accounts[input.account], RowOf(s, input.account);
    if out == Applied {
      var e := Mutate(closed, row, input, winner);
      assert after.rows == s.rows[input.account := e];
      MutateKeepsRowInv(closed, row, input, winner);
      if input.kind != Activate {
        AppliedThenRefused(closed, row, input, winner);
      } else {
        ActivatedTwice(closed, row, input, winner);
        if winner <= input.effectiveAt { ActivatedAgain(s, input, winner, loser); }
      }
      hide Mutate, Validate, Clashes, RowCheck, Inv;
    } else {
      assert after.rows == s.rows && Validate(closed, row, input) != Apply;
      hide Mutate, Validate, Clashes, RowCheck, Inv;
    }
  }

  /** Writing an activation again fails on the CHECK alone, and only for a clock before the row's creation. */
  lemma ActivatedAgain(s: Store, input: Input, winner: Time, loser: Time)
    requires Inv(s) && input.account in s.accounts && input.kind == Activate && winner <= input.effectiveAt
    requires var closed, row := s.accounts[input.account], RowOf(s, input.account);
      && Validate(closed, row, input) == Apply && RowInv(Mutate(closed, row, input, winner))
      && !Clashes(s.rows, input.account, Mutate(closed, row, input, winner))
    ensures var closed, row := s.accounts[input.account], RowOf(s, input.account);
      var e := Mutate(closed, row, input, winner);
      && Validate(closed, Some(e), input) == Apply
      && (RowCheck(Mutate(closed, Some(e), input, loser)) <==> loser >= e.createdAt)
      && !Clashes(s.rows[input.account := e], input.account, Mutate(closed, Some(e), input, loser))
  {
    var closed, row := s.accounts[input.account], RowOf(s, input.account);
    var e := Mutate(closed, row, input, winner);
    ActivatedTwice(closed, row, input, winner);
    MutateKeepsRowInv(closed, Some(e), input, loser);
    assert Mutate(closed, Some(e), input, loser).subscription == e.subscription;
    hide Validate, RowCheck;
  }

  /** Cancelling and then reactivating restores the row, with two versions more, and touches no other. */
  lemma ReactivationUndoesCancellation(
      s: Store, cancel: Input, reactivate: Input, t1: Time, t2: Time, production: bool)
    requires Inv(s) && cancel.kind == ScheduleCancellation && reactivate.kind == Reactivate
    requires cancel.account == reactivate.account
    requires Transition(s, cancel, t1, production).1 == Applied
    requires Transition(Transition(s, cancel, t1, production).0, reactivate, t2, production).1 == Applied
    ensures cancel.account in s.rows
    ensures var row := s.rows[cancel.account];
      Transition(Transition(s, cancel, t1, production).0, reactivate, t2, production).0.rows
        == s.rows[cancel.account := row.(cancellationRequestedAt := None, updatedAt := t2, version := row.version + 2)]
  {
    assert RowInv(s.rows[cancel.account]);
  }

  // ---- The tables, written statement by statement -------------------------

  class MembershipStore {
    const accounts: map<Id, bool>
    var rows: map<Id, Entitlement>
    var ledger: map<Key, Entry>

    constructor (s: Store)
      ensures Contents() == s
    {
      accounts, rows, ledger := s.accounts, s.rows, s.ledger;
    }

    function Contents(): Store
      reads this
    {
      Store(accounts, rows, ledger)
    }

    method InsertSourceEvent(input: Input, result: Recorded)
      requires KeyOf(input) !in ledger
      modifies this`ledger
      ensures Contents() == Record(old(Contents()), input, result)
    {
      ledger := ledger[KeyOf(input) := Entry(input, result)];
    }

    method ExecuteTransition(input: Input, processedAt: Time, production: bool) returns (out: Outcome)
      modifies this
      ensures (Contents(), out) == Transition(old(Contents()), input, processedAt, production)
    {
      if input.source == TestFixture && production {
        return Thrown(SourceNotAllowed);
      }
      if KeyOf(input) in ledger {
        return if ledger[KeyOf(input)].payload == input then Replayed else Rejected("payload_hash_mismatch");
      }
      if input.account !in accounts {
        return Thrown(AccountNotFound);
      }
      var closed := accounts[input.account];
      var entitlement := if input.account in rows then Some(rows[input.account]) else None;
      match Validate(closed, entitlement, input) {
        case Reject(reason) =>
          InsertSourceEvent(input, RecordedRejected);
          return Rejected(reason);
        case Stale(reason) =>
          InsertSourceEvent(input, RecordedStale);
          return StaleEvent(reason);
        case Apply =>
          var e := Mutate(closed, entitlement, input, processedAt);
          if !RowCheck(e) || Clashes(rows, input.account, e) {
            return Thrown(ConstraintViolation);
          }
          rows := rows[input.account := e];
          InsertSourceEvent(input, RecordedApplied);
          return Applied;
      }
    }
  }
}
