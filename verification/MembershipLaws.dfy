/**
 * When each membership transition is applied, what it then writes, and what becomes of it otherwise: for every store
 * that satisfies its constraints, in terms of the tables and the input alone.
 */
module MembershipLaws {
  import opened Prelude
  import opened MembershipTransitions

  /** The event is new, its account exists, and its source may be used here. */
  predicate Heard(s: Store, input: Input, production: bool) {
    && Key(input.source, input.eventId) !in s.ledger && input.account in s.accounts
    && !(input.source == TestFixture && production)
  }

  /** Another Stripe row already names the subscription. */
  predicate Taken(s: Store, account: Id, source: Source, subscription: Option<string>) {
    && source == Stripe && subscription.Some?
    && exists a <- s.rows :: a != account && s.rows[a].source == Stripe && s.rows[a].subscription == subscription
  }

  function Recording(s: Store, input: Input, result: Recorded): map<Key, Entry> {
    s.ledger[Key(input.source, input.eventId) := Entry(input, result)]
  }

  /**
   * The four answers of a new event: applied with the row it calls for, aborted without a trace, or refused, as
   * stale or as invalid, with a ledger row and nothing else.
   */
  ghost predicate Answered(
      s: Store, input: Input, processedAt: Time, production: bool,
      valid: bool, stale: bool, blocked: bool, written: Entitlement)
  {
    var (after, out) := Transition(s, input, processedAt, production);
    && (out == Applied <==> valid && !blocked)
    && (out == Applied ==>
          after == s.(rows := s.rows[input.account := written], ledger := Recording(s, input, RecordedApplied)))
    && (valid && blocked ==> out == Thrown(ConstraintViolation) && after == s)
    && (out.StaleEvent? <==> stale)
    && (out.StaleEvent? ==> after == s.(ledger := Recording(s, input, RecordedStale)))
    && (out.Rejected? <==> !valid && !stale)
    && (out.Rejected? ==> after == s.(ledger := Recording(s, input, RecordedRejected)))
    && !out.Replayed?
  }

  /**
   * An activation is valid for an open account and a window that is still to come, from no row or from one that is
   * inactive, expired or cancelling, or that is active and neither longer nor newer. It writes the window it was given.
   */
  lemma ActivateExactly(s: Store, input: Input, processedAt: Time, production: bool)
    requires Inv(s) && Heard(s, input, production) && input.kind == Activate
    ensures var row := RowOf(s, input.account);
      var opens := !s.accounts[input.account] && input.accessUntil.Some? && input.effectiveAt < input.accessUntil.value;
      var renews := row.Some? && row.value.status == Active;
      var shorter := renews && input.accessUntil.Some? && row.value.accessUntil.Some?
        && input.accessUntil.value < row.value.accessUntil.value;
      var behind := shorter || (renews && input.effectiveAt < row.value.updatedAt);
      var valid := opens && (row.None? || row.value.status in {Inactive, Expired, Cancelling} || (renews && !behind));
      var subscription := if input.subscription.Some? then input.subscription
                          else if row.Some? then row.value.subscription else None;
      var customer := if input.customer.Some? then input.customer
                      else if row.Some? then row.value.customer else None;
      var blocked := (row.Some? && processedAt < row.value.createdAt)
        || Taken(s, input.account, input.source, subscription);
      Answered(s, input, processedAt, production, valid, opens && behind, blocked,
               Entitlement(Active, input.accessUntil, false, input.source, customer, subscription,
                           Some(input.effectiveAt), None, None,
                           if row.Some? then row.value.createdAt else processedAt, processedAt,
                           if row.Some? then row.value.version + 1 else 1))
  {
    AbortsExactly(s, input, processedAt, production);
    assert input.account in s.rows ==> RowInv(s.rows[input.account]);
  }

  /** Cancelling is valid for an active, unlapsed row, unless it is older than a request already there. */
  lemma ScheduleExactly(s: Store, input: Input, processedAt: Time, production: bool)
    requires Inv(s) && Heard(s, input, production) && input.kind == ScheduleCancellation
    requires input.account in s.rows
    ensures var row := s.rows[input.account];
      var due := row.status == Active && row.accessUntil.Some? && input.effectiveAt < row.accessUntil.value;
      var older := row.cancellationRequestedAt.Some? && input.effectiveAt < row.cancellationRequestedAt.value;
      Answered(s, input, processedAt, production, due && !older, due && older, processedAt < row.createdAt,
               row.(status := Cancelling, cancelAtPeriodEnd := true,
                    cancellationRequestedAt := Some(input.effectiveAt), expiredAt := None,
                    updatedAt := processedAt, version := row.version + 1))
  {
    AbortsExactly(s, input, processedAt, production);
    assert RowInv(s.rows[input.account]) && !Clashes(s.rows, input.account, s.rows[input.account]);
  }

  /** Reactivating is valid for a cancelling, unlapsed row, unless it is older than the request it undoes. */
  lemma ReactivateExactly(s: Store, input: Input, processedAt: Time, production: bool)
    requires Inv(s) && Heard(s, input, production) && input.kind == Reactivate
    requires input.account in s.rows
    ensures var row := s.rows[input.account];
      var due := row.status == Cancelling && row.accessUntil.Some? && input.effectiveAt < row.accessUntil.value;
      var older := row.cancellationRequestedAt.Some? && input.effectiveAt < row.cancellationRequestedAt.value;
      Answered(s, input, processedAt, production, due && !older, due && older, processedAt < row.createdAt,
               row.(status := Active, cancelAtPeriodEnd := false, cancellationRequestedAt := None, expiredAt := None,
                    updatedAt := processedAt, version := row.version + 1))
  {
    AbortsExactly(s, input, processedAt, production);
    assert RowInv(s.rows[input.account]) && !Clashes(s.rows, input.account, s.rows[input.account]);
  }

  /** Expiring is valid for a paid row whose window is over. */
  lemma ExpireExactly(s: Store, input: Input, processedAt: Time, production: bool)
    requires Inv(s) && Heard(s, input, production) && input.kind == Expire
    requires input.account in s.rows
    ensures var row := s.rows[input.account];
      var due := row.status in {Active, Cancelling}
        && row.accessUntil.Some? && row.accessUntil.value <= input.effectiveAt;
      Answered(s, input, processedAt, production, due, false, processedAt < row.createdAt,
               row.(status := Expired, cancelAtPeriodEnd := false, cancellationRequestedAt := None,
                    expiredAt := Some(input.effectiveAt), updatedAt := processedAt, version := row.version + 1))
  {
    AbortsExactly(s, input, processedAt, production);
    assert RowInv(s.rows[input.account]) && !Clashes(s.rows, input.account, s.rows[input.account]);
  }

  /** Suspending is valid for a paid row, lapsed or not, and touches nothing but its status. */
  lemma SuspendExactly(s: Store, input: Input, processedAt: Time, production: bool)
    requires Inv(s) && Heard(s, input, production) && input.kind == Suspend
    requires input.account in s.rows
    ensures var row := s.rows[input.account];
      var due := row.status in {Active, Cancelling};
      Answered(s, input, processedAt, production, due, false, processedAt < row.createdAt,
               row.(status := Suspended, updatedAt := processedAt, version := row.version + 1))
  {
    AbortsExactly(s, input, processedAt, production);
    assert RowInv(s.rows[input.account]) && !Clashes(s.rows, input.account, s.rows[input.account]);
  }

  /** Why an event is refused or stale: the first of the reasons that apply. */
  lemma ReasonsExactly(s: Store, input: Input, processedAt: Time, production: bool)
    requires Heard(s, input, production)
    ensures var out, row := Transition(s, input, processedAt, production).1, RowOf(s, input.account);
      var refusal := match input.kind
        case Activate =>
          if s.accounts[input.account] then "account_closed"
          else if input.accessUntil.None? then "access_until_required"
          else if input.accessUntil.value <= input.effectiveAt then "access_until_must_exceed_effective_at"
          else if row.Some? && row.value.status == Active then "active_missing_access_until"
          else "invalid_status_for_activate"
        case ScheduleCancellation =>
          if row.Some? && row.value.status == Active then "not_temporally_active" else "not_active"
        case Reactivate =>
          if row.Some? && row.value.status == Cancelling then "not_temporally_active" else "not_cancelling"
        case Expire =>
          if row.Some? && row.value.status in {Active, Cancelling} then "expire_too_early"
          else "not_active_or_cancelling"
        case Suspend => "not_suspendable";
      var shorter := row.Some? && row.value.accessUntil.Some? && input.accessUntil.Some?
        && input.accessUntil.value < row.value.accessUntil.value;
      var lateness := match input.kind
        case Activate => if shorter then "would_reduce_access_until" else "older_event_overrides_newer_state"
        case ScheduleCancellation => "older_cancellation_event"
        case Reactivate => "older_reactivation_event"
        case _ => "older_expire_event";
      && (out.Rejected? ==> out.reason == refusal)
      && (out.StaleEvent? ==> out.reason == lateness)
  {
  }

  /** Without a row everything but an activation is refused. */
  lemma NoRowExactly(s: Store, input: Input, processedAt: Time, production: bool)
    requires Heard(s, input, production) && input.kind != Activate && input.account !in s.rows
    ensures var (after, out) := Transition(s, input, processedAt, production);
      out.Rejected? && after == s.(ledger := Recording(s, input, RecordedRejected))
  {
  }

  /** An event that is not new is compared with what was recorded; one that cannot be placed is thrown out. */
  lemma NotHeardExactly(s: Store, input: Input, processedAt: Time, production: bool)
    requires !Heard(s, input, production)
    ensures var key := Key(input.source, input.eventId);
      Transition(s, input, processedAt, production) ==
        (s, if input.source == TestFixture && production then Thrown(SourceNotAllowed)
            else if key !in s.ledger then Thrown(AccountNotFound)
            else if s.ledger[key].payload == input then Replayed
            else Rejected("payload_hash_mismatch"))
  {
  }
}
