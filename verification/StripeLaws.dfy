/**
 * What each kind of Stripe event does to the membership tables, for every store and every delivery, told from the
 * event and the tables alone.
 */
module StripeLaws {
  import opened Prelude
  import opened MembershipTransitions
  import opened StripeWebhooks
  import Laws = MembershipLaws

  /** The envelope is accepted, and the customer is linked to an account that exists. */
  predicate Reaches(s: Store, config: Config, d: Delivery, customer: Option<string>, account: Id) {
    && d.event.versionMatches && d.event.livemodeMatches
    && customer.Some? && customer.value != "" && customer.value in config.links
    && config.links[customer.value] == account && account in s.accounts
  }

  predicate New(s: Store, d: Delivery) {
    Key(Stripe, d.event.id) !in s.ledger
  }

  // ---- Updates ------------------------------------------------------------

  /** One line, one seat, our price, neither paused nor on trial. */
  predicate Supported(config: Config, sub: Subscription) {
    && |sub.items| == 1 && sub.items[0].quantity == 1 && sub.items[0].price == config.priceId
    && !sub.paused && !sub.trial
  }

  /**
   * An update carries the cancel flag over: set, it takes an active row to cancelling; cleared, it takes a cancelling
   * row back to active. The row must be unlapsed, and the update no older than the request already there.
   */
  lemma UpdateExactly(s: Store, config: Config, d: Delivery, account: Id)
    requires Inv(s) && d.event.body.SubscriptionUpdated? && New(s, d)
    requires Reaches(s, config, d, d.event.body.updated.customer, account) && account in s.rows
    requires Supported(config, d.event.body.updated)
    ensures var (after, reply) := Process(s, config, d);
      var row, cancel := s.rows[account], d.event.body.updated.cancelAtPeriodEnd;
      var due := row.status == (if cancel then Active else Cancelling)
        && row.accessUntil.Some? && d.now < row.accessUntil.value;
      var older := row.cancellationRequestedAt.Some? && d.now < row.cancellationRequestedAt.value;
      && (reply == ReplyApplied <==> due && !older && row.createdAt <= d.now)
      && (reply == ReplyApplied ==>
            after.rows == s.rows[account := row.(
              status := if cancel then Cancelling else Active, cancelAtPeriodEnd := cancel,
              cancellationRequestedAt := if cancel then Some(d.now) else None, expiredAt := None,
              updatedAt := d.now, version := row.version + 1)])
      && (due && older ==>
            reply == ReplyIgnored(if cancel then "older_cancellation_event" else "older_reactivation_event"))
      && (reply == ReplyError(ConstraintViolation) <==> due && !older && d.now < row.createdAt)
      && (!due ==>
            reply == ReplyRejected(if row.status == (if cancel then Active else Cancelling) then "not_temporally_active"
                                   else if cancel then "not_active" else "not_cancelling", false))
      && (reply != ReplyApplied ==> after.rows == s.rows)
  {
    var sub := d.event.body.updated;
    var input := Input(Stripe, d.event.id, if sub.cancelAtPeriodEnd then ScheduleCancellation else Reactivate,
                       account, d.now, None, sub.customer, Some(sub.id), Some(sub.cancelAtPeriodEnd));
    assert Process(s, config, d) == Answer(Transition(s, input, d.now, config.production)) by {
      hide Transition;
    }
    if sub.cancelAtPeriodEnd {
      Laws.ScheduleExactly(s, input, d.now, config.production);
    } else {
      Laws.ReactivateExactly(s, input, d.now, config.production);
    }
    Laws.ReasonsExactly(s, input, d.now, config.production);
    hide Process, Transition, Inv;
  }

  /** An update that is not supported changes nothing, and the first reason found is the answer. */
  lemma UnsupportedUpdateExactly(s: Store, config: Config, d: Delivery, account: Id)
    requires d.event.body.SubscriptionUpdated? && Reaches(s, config, d, d.event.body.updated.customer, account)
    requires !Supported(config, d.event.body.updated)
    ensures var sub := d.event.body.updated;
      Process(s, config, d) == (s, ReplyRejected(
        if |sub.items| != 1 then "unsupported_multi_line"
        else if sub.items[0].quantity != 1 then "unsupported_quantity"
        else if sub.items[0].price != config.priceId then "price_mismatch"
        else if sub.paused then "unsupported_pause" else "unsupported_trial", false))
  {
    hide Transition;
  }

  // ---- Paid invoices ------------------------------------------------------

  /** The invoice names a subscription, and Stripe's copy has one annual line at our price and a period end. */
  predicate Payable(config: Config, d: Delivery, end: int)
    requires d.event.body.InvoicePaid?
  {
    && d.event.body.subscription.Some? && d.event.body.subscription.value != ""
    && |d.retrieved.items| == 1 && d.retrieved.items[0].price == config.priceId && d.retrieved.items[0].annual
    && CurrentPeriodEnd(d.retrieved) == Some(end)
  }

  function Activation(d: Delivery, account: Id, end: int): Input
    requires d.event.body.InvoicePaid?
  {
    Input(Stripe, d.event.id, Activate, account, d.now, Some(end * 1000), d.event.body.customer,
          Some(d.retrieved.id), None)
  }

  lemma InvoiceUnfolds(s: Store, config: Config, d: Delivery, account: Id, end: int)
    requires d.event.body.InvoicePaid? && New(s, d)
    requires Reaches(s, config, d, d.event.body.customer, account) && Payable(config, d, end)
    ensures Process(s, config, d) == Answer(Transition(s, Activation(d, account, end), d.now, config.production))
  {
    hide Transition, CurrentPeriodEnd;
  }

  /**
   * A paid invoice activates the account up to the period end, unless that is past, the account is closed, the row is
   * in a state that payments do not change, or an active row already reaches further or was written later.
   */
  lemma InvoiceExactly(s: Store, config: Config, d: Delivery, account: Id, end: int)
    requires Inv(s) && d.event.body.InvoicePaid? && New(s, d)
    requires Reaches(s, config, d, d.event.body.customer, account) && Payable(config, d, end)
    ensures var (after, reply) := Process(s, config, d);
      var row, until := RowOf(s, account), end * 1000;
      var opens := !s.accounts[account] && d.now < until;
      var active := row.Some? && row.value.status == Active;
      var behind := active
        && ((row.value.accessUntil.Some? && until < row.value.accessUntil.value) || d.now < row.value.updatedAt);
      var valid := opens && (row.None? || row.value.status in {Inactive, Expired, Cancelling} || (active && !behind));
      var taken := exists a <- s.rows ::
        a != account && s.rows[a].source == Stripe && s.rows[a].subscription == Some(d.retrieved.id);
      var early := row.Some? && d.now < row.value.createdAt;
      && (reply == ReplyApplied <==> valid && !early && !taken)
      && (reply == ReplyApplied ==>
            after.rows == s.rows[account := Entitlement(
              Active, Some(until), false, Stripe, d.event.body.customer, Some(d.retrieved.id), Some(d.now), None, None,
              if row.Some? then row.value.createdAt else d.now, d.now, if row.Some? then row.value.version + 1 else 1)])
      && (reply.ReplyIgnored? <==> opens && behind)
      && (reply == ReplyError(ConstraintViolation) <==> valid && (early || taken))
      && (reply != ReplyApplied ==> after.rows == s.rows)
  {
    var input := Activation(d, account, end);
    InvoiceUnfolds(s, config, d, account, end);
    hide Process, Inv, CurrentPeriodEnd;
    Laws.ActivateExactly(s, input, d.now, config.production);
    hide Transition;
  }

  /** Why a payable invoice is refused, or comes too late. */
  lemma InvoiceRefusalExactly(s: Store, config: Config, d: Delivery, account: Id, end: int)
    requires d.event.body.InvoicePaid? && New(s, d)
    requires Reaches(s, config, d, d.event.body.customer, account) && Payable(config, d, end)
    ensures var reply, row, until := Process(s, config, d).1, RowOf(s, account), end * 1000;
      && (reply.ReplyIgnored? ==> reply == ReplyIgnored(
            if row.Some? && row.value.accessUntil.Some? && until < row.value.accessUntil.value
            then "would_reduce_access_until" else "older_event_overrides_newer_state"))
      && (reply.ReplyRejected? ==> reply == ReplyRejected(
            if s.accounts[account] then "account_closed"
            else if until <= d.now then "access_until_must_exceed_effective_at"
            else if row.Some? && row.value.status == Active then "active_missing_access_until"
            else "invalid_status_for_activate", false))
  {
    var input := Activation(d, account, end);
    InvoiceUnfolds(s, config, d, account, end);
    hide Process, CurrentPeriodEnd, Transition;
    Laws.ReasonsExactly(s, input, d.now, config.production);
  }

  /** An invoice that is not payable changes nothing, and the first reason found is the answer. */
  lemma UnpayableInvoiceExactly(s: Store, config: Config, d: Delivery, account: Id)
    requires d.event.body.InvoicePaid? && Reaches(s, config, d, d.event.body.customer, account)
    requires forall end :: !Payable(config, d, end)
    ensures var subscription, sub := d.event.body.subscription, d.retrieved;
      Process(s, config, d) == (s,
        if subscription.None? || subscription.value == "" then ReplyIgnored("invoice_missing_subscription")
        else if |sub.items| != 1 || sub.items[0].price != config.priceId || !sub.items[0].annual
        then ReplyRejected("price_mismatch", false)
        else ReplyRejected("missing_current_period_end", false))
  {
    if CurrentPeriodEnd(d.retrieved).Some? {
      assert !Payable(config, d, CurrentPeriodEnd(d.retrieved).value);
    }
    hide Transition, CurrentPeriodEnd;
  }

  // ---- Deletions ----------------------------------------------------------

  /** A deletion expires a paid row whose window is over, and leaves unlapsed access, and the ledger, alone. */
  lemma DeletionExactly(s: Store, config: Config, d: Delivery, account: Id)
    requires Inv(s) && d.event.body.SubscriptionDeleted? && New(s, d)
    requires Reaches(s, config, d, d.event.body.deleted.customer, account)
    ensures var (after, reply) := Process(s, config, d);
      if account !in s.rows || s.rows[account].accessUntil.None? || d.now < s.rows[account].accessUntil.value
      then (after, reply) == (s, ReplyApplied)
      else
        var row := s.rows[account];
        && (reply == ReplyApplied <==> row.status in {Active, Cancelling} && row.createdAt <= d.now)
        && (reply == ReplyApplied ==>
              after.rows == s.rows[account := row.(
                status := Expired, cancelAtPeriodEnd := false, cancellationRequestedAt := None,
                expiredAt := Some(d.now), updatedAt := d.now, version := row.version + 1)])
        && (reply == ReplyError(ConstraintViolation) <==>
              row.status in {Active, Cancelling} && d.now < row.createdAt)
        && (row.status !in {Active, Cancelling} ==> reply == ReplyRejected("not_active_or_cancelling", false))
        && (reply != ReplyApplied ==> after.rows == s.rows)
  {
    if account in s.rows && s.rows[account].accessUntil.Some? && s.rows[account].accessUntil.value <= d.now {
      var sub := d.event.body.deleted;
      var input := Input(Stripe, d.event.id, Expire, account, d.now, None, sub.customer, Some(sub.id), None);
      assert Process(s, config, d) == Answer(Transition(s, input, d.now, config.production)) by {
        hide Transition;
      }
      hide Process, Inv;
      Laws.ExpireExactly(s, input, d.now, config.production);
      Laws.ReasonsExactly(s, input, d.now, config.production);
      hide Transition;
    }
  }

  // ---- Checkouts and the rest ---------------------------------------------

  /** A complete checkout links its subscription to a row that has another, unless some other row holds it. */
  lemma CheckoutExactly(s: Store, config: Config, d: Delivery, account: Id)
    requires Inv(s) && d.event.body.CheckoutCompleted?
    requires Reaches(s, config, d, d.event.body.customer, account)
    ensures var (after, reply) := Process(s, config, d);
      var body := d.event.body;
      var links := body.complete && account in s.rows && body.subscription.Some? && body.subscription.value != ""
        && s.rows[account].subscription != body.subscription;
      if !links then after == s && reply == if body.complete then ReplyApplied else ReplyIgnored("session_not_complete")
      else
        var row := s.rows[account];
        var taken := row.source == Stripe && exists a <- s.rows ::
          a != account && s.rows[a].source == Stripe && s.rows[a].subscription == body.subscription;
        if d.now < row.createdAt || taken then (after, reply) == (s, ReplyError(ConstraintViolation))
        else
          && reply == ReplyApplied
          && after == s.(rows := s.rows[account := row.(
               customer := if row.customer.Some? then row.customer else body.customer,
               subscription := body.subscription, updatedAt := d.now, version := row.version + 1)])
  {
    if account in s.rows {
      assert RowInv(s.rows[account]);
    }
    hide Transition;
  }

  /** Whatever does not reach an account, or is none of the four kinds, changes nothing. */
  lemma OthersExactly(s: Store, config: Config, d: Delivery)
    requires match d.event.body
             case CheckoutCompleted(customer, _, _) => forall a :: !Reaches(s, config, d, customer, a)
             case InvoicePaid(customer, _) => forall a :: !Reaches(s, config, d, customer, a)
             case SubscriptionUpdated(sub) => forall a :: !Reaches(s, config, d, sub.customer, a)
             case SubscriptionDeleted(sub) => forall a :: !Reaches(s, config, d, sub.customer, a)
             case _ => true
    requires forall customer <- config.links :: config.links[customer] in s.accounts
    ensures var (after, reply) := Process(s, config, d);
      && after == s
      && (!d.event.versionMatches ==> reply == ReplyRejected("api_version_mismatch", false))
      && (d.event.versionMatches && !d.event.livemodeMatches ==> reply == ReplyRejected("livemode_mismatch", false))
      && (d.event.versionMatches && d.event.livemodeMatches ==>
            reply == match d.event.body
                     case PaymentFailed(customer) =>
                       if customer.Some? && customer.value != "" && customer.value in config.links
                       then ReplyApplied else ReplyIgnored("account_unresolved")
                     case Unhandled => ReplyIgnored("unhandled_event_type")
                     case UnexpectedObject => ReplyRejected("unexpected_object", false)
                     case _ => ReplyRejected("account_unresolved", true))
  {
    hide Transition, CurrentPeriodEnd;
    var customer := match d.event.body
      case CheckoutCompleted(customer, _, _) => customer
      case InvoicePaid(customer, _) => customer
      case SubscriptionUpdated(sub) => sub.customer
      case SubscriptionDeleted(sub) => sub.customer
      case _ => None;
    if customer.Some? && customer.value in config.links {
      var account := config.links[customer.value];
      assert Reaches(s, config, d, customer, account)
        <==> d.event.versionMatches && d.event.livemodeMatches && customer.value != "";
    }
  }
}
