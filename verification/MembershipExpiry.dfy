/**
 * Lapsed memberships: read as expired at once, and written as expired whenever a sweep comes by. Sweeps
 * must not be observable, neither in what is read nor in what later Stripe events do.
 */
module MembershipExpiry {
  import opened Prelude
  import opened MembershipTransitions
  import W = StripeWebhooks

  const COMMITMENT_VERSION := "community-commitment-v1"

  datatype Denial =
    | NoSession | InactiveAccount | NoEntitlement | InactiveMembership | ExpiredMembership | ElapsedAccessUntil
    | ActorMissing | ActorAccountMismatch | ActorCommunityMismatch | CommitmentMissing
  datatype Access = Visitor(denial: Denial) | ReadOnly(denial: Denial) | Participant

  datatype Account = Account(id: Id, active: bool, isOwner: bool)
  datatype Actor = Actor(
    accountId: Option<Id>,
    communityId: Option<Id>,
    acceptedAt: Option<Time>,
    commitmentVersion: Option<string>)

  /** What a request supplies besides the entitlement. */
  datatype Request = Request(
    session: Option<Id>,
    account: Option<Account>,
    actor: Option<Actor>,
    communityId: Option<Id>)

  // ---- Reading an entitlement ---------------------------------------------

  predicate TemporallyValid(row: Option<Entitlement>, now: Time) {
    row.Some? && Earlier(now, row.value.accessUntil)
  }

  function EffectiveStatus(row: Option<Entitlement>, now: Time): Status {
    if row.None? then Inactive
    else if row.value.accessUntil.Some? && now >= row.value.accessUntil.value then Expired
    else row.value.status
  }

  predicate HasCommitment(actor: Actor) {
    actor.communityId.Some? && actor.acceptedAt.Some? && actor.commitmentVersion == Some(COMMITMENT_VERSION)
  }

  /** The membership gate of a non-owner. */
  function MembershipDenial(row: Option<Entitlement>, now: Time): Option<Denial> {
    var status := EffectiveStatus(row, now);
    if row.None? then Some(NoEntitlement)
    else if status == Inactive then Some(InactiveMembership)
    else if status == Expired then Some(ExpiredMembership)
    else if status == PaidPendingBinding then Some(InactiveMembership)
    else if status == Suspended then Some(InactiveMembership)
    else if !TemporallyValid(row, now) then Some(ElapsedAccessUntil)
    else if status !in {Active, Cancelling} then Some(InactiveMembership)
    else None
  }

  function EvaluateCivicAccess(req: Request, row: Option<Entitlement>, now: Time): Access {
    if req.session.None? then Visitor(NoSession)
    else if req.account.None? || req.account.value.id != req.session.value then ReadOnly(InactiveAccount)
    else if !req.account.value.active then ReadOnly(InactiveAccount)
    else if !req.account.value.isOwner && MembershipDenial(row, now).Some? then
      ReadOnly(MembershipDenial(row, now).value)
    else if req.actor.None? then ReadOnly(ActorMissing)
    else if req.actor.value.accountId != req.session then ReadOnly(ActorAccountMismatch)
    else if req.communityId.Some? && req.actor.value.communityId != req.communityId then
      ReadOnly(ActorCommunityMismatch)
    else if !HasCommitment(req.actor.value) then ReadOnly(CommitmentMissing)
    else Participant
  }

  datatype View = View(
    status: Status,
    accessUntil: Option<Time>,
    cancelAtPeriodEnd: bool,
    access: Access,
    isOwner: bool)

  function MembershipView(req: Request, row: Option<Entitlement>, now: Time): View {
    var status := EffectiveStatus(row, now);
    View(status,
         if row.Some? then row.value.accessUntil else None,
         if status in {Expired, Inactive} || row.None? then false else row.value.cancelAtPeriodEnd,
         EvaluateCivicAccess(req, row, now),
         req.account.Some? && req.account.value.isOwner)
  }

  /** Who participates: an active account with its own, committed actor, that owns the place or has paid access. */
  lemma ParticipationExactly(req: Request, row: Option<Entitlement>, now: Time)
    ensures EvaluateCivicAccess(req, row, now) == Participant <==>
      && req.session.Some? && req.account.Some? && req.account.value.id == req.session.value
      && req.account.value.active
      && req.actor.Some? && req.actor.value.accountId == req.session && HasCommitment(req.actor.value)
      && (req.communityId.Some? ==> req.actor.value.communityId == req.communityId)
      && (req.account.value.isOwner
          || (row.Some? && row.value.status in {Active, Cancelling} && Earlier(now, row.value.accessUntil)))
  {
  }

  // ---- Sweeping -----------------------------------------------------------

  /** A row that the sweep query selected, with the text of its `access_until`. */
  datatype Candidate = Candidate(account: Id, accessUntilText: string)

  function SweepInput(source: Source, prefix: string, c: Candidate, now: Time): Input {
    Input(source, prefix + c.account + ":" + c.accessUntilText, Expire, c.account, now, None, None, None, None)
  }

  /** The sweep expires its candidates one transaction each. */
  function Sweep(s: Store, source: Source, prefix: string, cs: seq<Candidate>, now: Time, production: bool): Store {
    if cs == [] then
      s
    else
      Transition(Sweep(s, source, prefix, cs[..|cs| - 1], now, production),
                 SweepInput(source, prefix, cs[|cs| - 1], now), now, production).0
  }

  method ReconcileExpiredMemberships(
      store: MembershipStore, source: Source, prefix: string, cs: seq<Candidate>, now: Time, production: bool)
    returns (results: seq<Outcome>)
    modifies store
    ensures store.Contents() == Sweep(old(store.Contents()), source, prefix, cs, now, production)
    ensures |results| == |cs|
    ensures forall k :: 0 <= k < |cs| ==>
      results[k] == Transition(Sweep(old(store.Contents()), source, prefix, cs[..k], now, production),
                               SweepInput(source, prefix, cs[k], now), now, production).1
  {
    hide Transition, SweepInput;
    results := [];
    for k := 0 to |cs|
      invariant store.Contents() == Sweep(old(store.Contents()), source, prefix, cs[..k], now, production)
      invariant |results| == k
      invariant forall j :: 0 <= j < k ==>
        results[j] == Transition(Sweep(old(store.Contents()), source, prefix, cs[..j], now, production),
                                 SweepInput(source, prefix, cs[j], now), now, production).1
    {
      assert cs[..k + 1][..k] == cs[..k];
      var out := store.ExecuteTransition(SweepInput(source, prefix, cs[k], now), now, production);
      results := results + [out];
    }
    assert cs[..|cs|] == cs;
  }

  // ---- Rows that differ only by a sweep -----------------------------------

  predicate Paid(e: Entitlement) {
    e.status in {Active, Cancelling}
  }

  /**
   * `eager` is `lazy` after any number of sweeps up to `t`: the same row but for its version and update
   * time, or a lapsed row that a sweep has already marked.
   */
  predicate SameButSwept(lazy: Entitlement, eager: Entitlement, t: Time) {
    && eager == lazy.(status := eager.status, cancelAtPeriodEnd := eager.cancelAtPeriodEnd,
                      cancellationRequestedAt := eager.cancellationRequestedAt, expiredAt := eager.expiredAt,
                      updatedAt := eager.updatedAt, version := eager.version)
    && (eager == lazy.(updatedAt := eager.updatedAt, version := eager.version)
        || (eager.status == Expired && lazy.status == Expired)
        || (eager.status == Expired && Paid(lazy) && lazy.accessUntil.Some? && lazy.accessUntil.value <= t))
  }

  predicate RowsAgree(lazy: Option<Entitlement>, eager: Option<Entitlement>, t: Time) {
    match (lazy, eager)
    case (None, None) => true
    case (Some(l), Some(e)) => RowInv(l) && RowInv(e) && l.updatedAt <= t && e.updatedAt <= t && SameButSwept(l, e, t)
    case _ => false
  }

  /** What can be read of the two rows, at `t` or later, is the same. */
  lemma SweptReadsSame(req: Request, lazy: Option<Entitlement>, eager: Option<Entitlement>, t: Time, now: Time)
    requires RowsAgree(lazy, eager, t) && t <= now
    ensures EffectiveStatus(lazy, now) == EffectiveStatus(eager, now)
    ensures EvaluateCivicAccess(req, lazy, now) == EvaluateCivicAccess(req, eager, now)
    ensures MembershipView(req, lazy, now) == MembershipView(req, eager, now)
  {
  }

  /** The row a transition leaves behind, when no constraint is in its way. */
  function After(closed: bool, row: Option<Entitlement>, input: Input, now: Time): Option<Entitlement> {
    if Validate(closed, row, input) == Apply then Some(Mutate(closed, row, input, now)) else row
  }

  /** A Stripe transition takes rows that agree to rows that agree, whatever it finds. */
  lemma TransitionKeepsAgreement(
      closed: bool, lazy: Option<Entitlement>, eager: Option<Entitlement>, input: Input, t: Time, now: Time)
    requires RowsAgree(lazy, eager, t) && t <= now && input.effectiveAt == now && input.kind != Suspend
    ensures RowsAgree(After(closed, lazy, input, now), After(closed, eager, input, now), now)
    ensures input.kind != Expire ==>
      (Validate(closed, lazy, input) == Apply <==> Validate(closed, eager, input) == Apply)
  {
    if lazy.Some? {
      if Validate(closed, lazy, input) == Apply { MutateKeepsRowInv(closed, lazy, input, now); }
      if Validate(closed, eager, input) == Apply { MutateKeepsRowInv(closed, eager, input, now); }
    }
  }

  /** Suspension is the exception: it looks at the stored status, so it tells a swept row from a lapsed one. */
  lemma SuspendAgreesExactly(closed: bool, lazy: Entitlement, eager: Entitlement, input: Input, t: Time, now: Time)
    requires RowsAgree(Some(lazy), Some(eager), t) && t <= now && input.kind == Suspend && input.effectiveAt == now
    ensures RowsAgree(After(closed, Some(lazy), input, now), After(closed, Some(eager), input, now), now)
       <==> !(Paid(lazy) && eager.status == Expired)
  {
  }

  // ---- Whole stores -------------------------------------------------------

  /** Ids of Stripe's own never carry the sweep's prefix. */
  predicate SweepId(prefix: string, id: string) {
    prefix <= id
  }

  ghost predicate Agree(lazy: Store, eager: Store, prefix: string, t: Time) {
    && lazy.accounts == eager.accounts
    && Inv(lazy) && Inv(eager)
    && (forall a :: RowsAgree(RowOf(lazy, a), RowOf(eager, a), t))
    && (forall k: Key :: !SweepId(prefix, k.eventId) ==> (k in lazy.ledger <==> k in eager.ledger))
  }

  lemma AgreeLater(lazy: Store, eager: Store, prefix: string, t: Time, now: Time)
    requires Agree(lazy, eager, prefix, t) && t <= now
    ensures Agree(lazy, eager, prefix, now)
  {
    forall a ensures RowsAgree(RowOf(lazy, a), RowOf(eager, a), now) {
      assert RowsAgree(RowOf(lazy, a), RowOf(eager, a), t);
    }
  }

  lemma ClashesAgree(lazy: Store, eager: Store, prefix: string, t: Time, account: Id, l: Entitlement, e: Entitlement)
    requires Agree(lazy, eager, prefix, t) && l.source == e.source && l.subscription == e.subscription
    ensures Clashes(lazy.rows, account, l) <==> Clashes(eager.rows, account, e)
  {
    forall a ensures a in lazy.rows <==> a in eager.rows
             ensures a in lazy.rows ==> lazy.rows[a].source == eager.rows[a].source
                                        && lazy.rows[a].subscription == eager.rows[a].subscription
    {
      assert RowsAgree(RowOf(lazy, a), RowOf(eager, a), t);
    }
  }

  /** Expiring keeps source and subscription, so it never meets the unique key. */
  lemma ExpireNeverClashes(s: Store, account: Id, e: Entitlement)
    requires SubscriptionsUnique(s.rows) && account in s.rows
    requires e.source == s.rows[account].source && e.subscription == s.rows[account].subscription
    ensures !Clashes(s.rows, account, e)
  {
    assert !Clashes(s.rows, account, s.rows[account]);
  }

  /** What a transition does to its account's row: `After`, unless the subscription is taken. */
  lemma FreshRow(s: Store, input: Input, now: Time)
    requires Inv(s) && input.account in s.accounts
    requires RowOf(s, input.account).Some? ==> RowOf(s, input.account).value.updatedAt <= now
    ensures var closed, row, after := s.accounts[input.account], RowOf(s, input.account), Fresh(s, input, now).0;
      && (forall a :: a != input.account ==> RowOf(after, a) == RowOf(s, a))
      && (if Validate(closed, row, input) == Apply && Clashes(s.rows, input.account, Mutate(closed, row, input, now))
          then after == s && input.kind != Expire
          else RowOf(after, input.account) == After(closed, row, input, now)
               && after.ledger.Keys == s.ledger.Keys + {KeyOf(input)})
  {
    var closed, row := s.accounts[input.account], RowOf(s, input.account);
    if Validate(closed, row, input) == Apply {
      MutateKeepsRowInv(closed, row, input, now);
      if input.kind == Expire {
        ExpireNeverClashes(s, input.account, Mutate(closed, row, input, now));
      }
    }
  }

  lemma MutateKeepsSubscriptions(closed: bool, lazy: Option<Entitlement>, eager: Option<Entitlement>,
                                 input: Input, t: Time, now: Time)
    requires RowsAgree(lazy, eager, t)
    requires Validate(closed, lazy, input) == Apply && Validate(closed, eager, input) == Apply
    ensures var l, e := Mutate(closed, lazy, input, now), Mutate(closed, eager, input, now);
      l.source == e.source && l.subscription == e.subscription
  {
  }

  lemma FreshAgrees(lazy: Store, eager: Store, prefix: string, input: Input, t: Time, now: Time)
    requires Agree(lazy, eager, prefix, t) && t <= now && input.effectiveAt == now && input.kind != Suspend
    requires input.account in lazy.accounts && RowsAgree(RowOf(lazy, input.account), RowOf(eager, input.account), t)
    ensures var l, e := Fresh(lazy, input, now).0, Fresh(eager, input, now).0;
      && (forall a :: RowsAgree(RowOf(l, a), RowOf(e, a), now))
      && (forall k: Key :: !SweepId(prefix, k.eventId) ==> (k in l.ledger <==> k in e.ledger))
  {
    hide Fresh, Validate, Mutate, Clashes;
    var l, e := Fresh(lazy, input, now).0, Fresh(eager, input, now).0;
    var closed := lazy.accounts[input.account];
    var lr, er := RowOf(lazy, input.account), RowOf(eager, input.account);
    AgreeLater(lazy, eager, prefix, t, now);
    FreshRow(lazy, input, now);
    FreshRow(eager, input, now);
    TransitionKeepsAgreement(closed, lr, er, input, t, now);
    hide RowsAgree, Inv, After;
    if Validate(closed, lr, input) == Apply && Validate(closed, er, input) == Apply {
      MutateKeepsSubscriptions(closed, lr, er, input, t, now);
      ClashesAgree(lazy, eager, prefix, t, input.account,
                   Mutate(closed, lr, input, now), Mutate(closed, er, input, now));
    }
    forall a ensures RowsAgree(RowOf(l, a), RowOf(e, a), now) {
      assert RowsAgree(RowOf(lazy, a), RowOf(eager, a), now);
    }
  }

  /** A transition that Stripe asks for keeps two stores in agreement. */
  lemma TransitionAgrees(lazy: Store, eager: Store, prefix: string, input: Input, t: Time, now: Time, production: bool)
    requires Agree(lazy, eager, prefix, t) && t <= now && input.effectiveAt == now && input.kind != Suspend
    requires !SweepId(prefix, input.eventId)
    ensures Agree(Transition(lazy, input, now, production).0, Transition(eager, input, now, production).0, prefix, now)
  {
    assert KeyOf(input) in lazy.ledger <==> KeyOf(input) in eager.ledger;
    assert RowsAgree(RowOf(lazy, input.account), RowOf(eager, input.account), t);
    hide Validate, Mutate, RowsAgree, Clashes, Inv, RowCheck;
    AgreeLater(lazy, eager, prefix, t, now);
    TransitionKeepsInv(lazy, input, now, production);
    TransitionKeepsInv(eager, input, now, production);
    TransitionEffect(lazy, input, now, production);
    TransitionEffect(eager, input, now, production);
    if input.account in lazy.accounts {
      FreshAgrees(lazy, eager, prefix, input, t, now);
      hide Fresh;
    }
  }

  /** A sweep of the eager store alone keeps the agreement. */
  lemma SweepAgrees(lazy: Store, eager: Store, prefix: string, input: Input, t: Time, now: Time, production: bool)
    requires Agree(lazy, eager, prefix, t) && t <= now && input.effectiveAt == now && input.kind == Expire
    requires SweepId(prefix, input.eventId)
    ensures Agree(lazy, Transition(eager, input, now, production).0, prefix, now)
  {
    var e := Transition(eager, input, now, production).0;
    AgreeLater(lazy, eager, prefix, t, now);
    TransitionKeepsInv(eager, input, now, production);
    TransitionEffect(eager, input, now, production);
    assert RowsAgree(RowOf(lazy, input.account), RowOf(eager, input.account), t);
    if input.account in eager.accounts {
      FreshRow(eager, input, now);
      var closed := eager.accounts[input.account];
      SweptRowAgrees(closed, RowOf(lazy, input.account), RowOf(eager, input.account), input, t, now);
    }
    hide Fresh, Validate, Mutate, RowsAgree, Clashes, Inv;
    forall a ensures RowsAgree(RowOf(lazy, a), RowOf(e, a), now) {
      assert RowsAgree(RowOf(lazy, a), RowOf(eager, a), now);
    }
  }

  lemma SweptRowAgrees(
      closed: bool, lazy: Option<Entitlement>, eager: Option<Entitlement>, input: Input, t: Time, now: Time)
    requires RowsAgree(lazy, eager, t) && t <= now && input.effectiveAt == now && input.kind == Expire
    ensures RowsAgree(lazy, After(closed, eager, input, now), now)
  {
    if Validate(closed, eager, input) == Apply { MutateKeepsRowInv(closed, eager, input, now); }
  }

  function LinkedRow(e: Entitlement, d: W.Delivery): Entitlement
    requires d.event.body.CheckoutCompleted? && d.event.body.subscription.Some?
  {
    W.Linked(e, d.event.body.customer, d.event.body.subscription.value, d.now)
  }

  lemma LinkedAgrees(l: Entitlement, e: Entitlement, d: W.Delivery, t: Time)
    requires RowsAgree(Some(l), Some(e), t) && t <= d.now
    requires d.event.body.CheckoutCompleted? && d.event.body.subscription.Some?
    ensures l.subscription == e.subscription
    ensures LinkedRow(l, d).source == LinkedRow(e, d).source
    ensures LinkedRow(l, d).subscription == LinkedRow(e, d).subscription
    ensures RowsAgree(Some(LinkedRow(l, d)), Some(LinkedRow(e, d)), d.now)
  {
  }

  /** When a checkout links: a linked account with a row, another subscription, and no taken key. */
  predicate Links(s: Store, config: W.Config, d: W.Delivery)
    requires d.event.body.CheckoutCompleted?
  {
    var account, subscription := W.AccountOf(config, d.event.body.customer), d.event.body.subscription;
    && d.event.versionMatches && d.event.livemodeMatches && d.event.body.complete
    && account.Some? && account.value in s.rows && subscription.Some? && subscription.value != ""
    && s.rows[account.value].subscription != subscription
    && !Clashes(s.rows, account.value, LinkedRow(s.rows[account.value], d))
  }

  lemma CheckoutRow(s: Store, config: W.Config, d: W.Delivery)
    requires Inv(s) && d.event.body.CheckoutCompleted?
    requires forall a <- s.rows :: s.rows[a].updatedAt <= d.now
    ensures W.Process(s, config, d).0 ==
      if Links(s, config, d) then
        var a := W.AccountOf(config, d.event.body.customer).value;
        s.(rows := s.rows[a := LinkedRow(s.rows[a], d)])
      else s
  {
    var account := W.AccountOf(config, d.event.body.customer);
    if account.Some? && account.value in s.rows { assert RowInv(s.rows[account.value]); }
  }

  lemma LinksSame(lazy: Store, eager: Store, config: W.Config, d: W.Delivery, prefix: string, t: Time)
    requires Agree(lazy, eager, prefix, t) && t <= d.now && d.event.body.CheckoutCompleted?
    ensures Links(lazy, config, d) <==> Links(eager, config, d)
  {
    var account := W.AccountOf(config, d.event.body.customer);
    if account.Some? {
      var a := account.value;
      assert RowsAgree(RowOf(lazy, a), RowOf(eager, a), t);
      if a in lazy.rows && d.event.body.subscription.Some? {
        LinkedAgrees(lazy.rows[a], eager.rows[a], d, t);
        ClashesAgree(lazy, eager, prefix, t, a, LinkedRow(lazy.rows[a], d), LinkedRow(eager.rows[a], d));
      }
    }
    hide Inv, Clashes, LinkedRow;
  }

  /** So does a checkout, which looks at neither status nor window. */
  lemma CheckoutAgrees(lazy: Store, eager: Store, config: W.Config, d: W.Delivery, prefix: string, t: Time)
    requires Agree(lazy, eager, prefix, t) && t <= d.now && d.event.body.CheckoutCompleted?
    ensures Agree(W.Process(lazy, config, d).0, W.Process(eager, config, d).0, prefix, d.now)
  {
    hide W.Process, LinkedRow, Clashes;
    var l, e := W.Process(lazy, config, d).0, W.Process(eager, config, d).0;
    forall a
      ensures (a in lazy.rows ==> lazy.rows[a].updatedAt <= t) && (a in eager.rows ==> eager.rows[a].updatedAt <= t)
    {
      assert RowsAgree(RowOf(lazy, a), RowOf(eager, a), t);
    }
    W.CheckoutKeepsAccess(lazy, config, d);
    W.CheckoutKeepsAccess(eager, config, d);
    CheckoutRow(lazy, config, d);
    CheckoutRow(eager, config, d);
    LinksSame(lazy, eager, config, d, prefix, t);
    AgreeLater(lazy, eager, prefix, t, d.now);
    var linking := Links(lazy, config, d);
    if linking {
      var a := W.AccountOf(config, d.event.body.customer).value;
      assert RowsAgree(RowOf(lazy, a), RowOf(eager, a), t);
      LinkedAgrees(lazy.rows[a], eager.rows[a], d, t);
    }
    hide Inv, RowsAgree, Links;
    forall a ensures RowsAgree(RowOf(l, a), RowOf(e, a), d.now) {
      assert RowsAgree(RowOf(lazy, a), RowOf(eager, a), d.now);
    }
  }

  lemma DeliveryAgrees(lazy: Store, eager: Store, config: W.Config, d: W.Delivery, prefix: string, t: Time)
    requires Agree(lazy, eager, prefix, t) && t <= d.now && !SweepId(prefix, d.event.id)
    ensures Agree(W.Process(lazy, config, d).0, W.Process(eager, config, d).0, prefix, d.now)
  {
    if d.event.body.CheckoutCompleted? {
      CheckoutAgrees(lazy, eager, config, d, prefix, t);
    } else {
      W.ProcessIsAsked(lazy, config, d);
      W.ProcessIsAsked(eager, config, d);
      AskedSame(lazy, eager, config, d, prefix, t);
      AgreeLater(lazy, eager, prefix, t, d.now);
      var input := W.Asked(lazy, config, d);
      if input.Some? {
        AskedShape(lazy, config, d);
        hide W.Process, W.Asked, Agree;
        TransitionAgrees(lazy, eager, prefix, input.value, t, d.now, config.production);
      }
    }
  }

  lemma AskedShape(s: Store, config: W.Config, d: W.Delivery)
    requires W.Asked(s, config, d).Some?
    ensures var input := W.Asked(s, config, d).value;
      input.effectiveAt == d.now && input.kind != Suspend && input.eventId == d.event.id
  {
  }

  lemma AskedSame(lazy: Store, eager: Store, config: W.Config, d: W.Delivery, prefix: string, t: Time)
    requires Agree(lazy, eager, prefix, t)
    ensures W.Asked(lazy, config, d) == W.Asked(eager, config, d)
  {
    if d.event.body.SubscriptionDeleted? {
      var account := W.AccountOf(config, d.event.body.deleted.customer);
      if account.Some? {
        assert RowsAgree(RowOf(lazy, account.value), RowOf(eager, account.value), t);
      }
    }
  }

  // ---- Runs with sweeps and runs without ----------------------------------

  datatype Step =
    | Deliver(delivery: W.Delivery)
    | SweepOne(source: Source, candidate: Candidate, at: Time)

  function ClockOf(step: Step): Time {
    match step
    case Deliver(d) => d.now
    case SweepOne(_, _, at) => at
  }

  function Do(s: Store, config: W.Config, prefix: string, step: Step): Store {
    match step
    case Deliver(d) => W.Process(s, config, d).0
    case SweepOne(source, c, at) => Transition(s, SweepInput(source, prefix, c, at), at, config.production).0
  }

  function Eager(s: Store, config: W.Config, prefix: string, steps: seq<Step>): Store {
    if steps == [] then s
    else Do(Eager(s, config, prefix, steps[..|steps| - 1]), config, prefix, steps[|steps| - 1])
  }

  /** The same run with every sweep left out. */
  function Lazy(s: Store, config: W.Config, prefix: string, steps: seq<Step>): Store {
    if steps == [] then
      s
    else
      var before, step := Lazy(s, config, prefix, steps[..|steps| - 1]), steps[|steps| - 1];
      if step.SweepOne? then before else Do(before, config, prefix, step)
  }

  /** Clocks never run backwards, and Stripe's ids are not the sweep's. */
  ghost predicate Timely(steps: seq<Step>, prefix: string, start: Time) {
    && (forall i :: 0 <= i < |steps| ==> start <= ClockOf(steps[i]))
    && (forall i, j :: 0 <= i < j < |steps| ==> ClockOf(steps[i]) <= ClockOf(steps[j]))
    && (forall i :: 0 <= i < |steps| && steps[i].Deliver? ==> !SweepId(prefix, steps[i].delivery.event.id))
  }

  function LastClock(steps: seq<Step>, start: Time): Time {
    if steps == [] then start else ClockOf(steps[|steps| - 1])
  }

  lemma {:induction false} RunsAgree(s: Store, config: W.Config, prefix: string, steps: seq<Step>, start: Time)
    requires Inv(s) && Timely(steps, prefix, start)
    requires forall a <- s.rows :: s.rows[a].updatedAt <= start
    ensures Agree(Lazy(s, config, prefix, steps), Eager(s, config, prefix, steps), prefix, LastClock(steps, start))
  {
    if steps != [] {
      var shorter, step := steps[..|steps| - 1], steps[|steps| - 1];
      RunsAgree(s, config, prefix, shorter, start);
      var lazy, eager := Lazy(s, config, prefix, shorter), Eager(s, config, prefix, shorter);
      assert LastClock(shorter, start) <= ClockOf(step);
      hide Agree, W.Process, Transition;
      match step
      case Deliver(d) =>
        DeliveryAgrees(lazy, eager, config, d, prefix, LastClock(shorter, start));
      case SweepOne(source, c, at) =>
        var input := SweepInput(source, prefix, c, at);
        assert prefix <= input.eventId;
        SweepAgrees(lazy, eager, prefix, input, LastClock(shorter, start), at, config.production);
    }
  }

  /**
   * Sweeps inserted anywhere into any run of Stripe deliveries are invisible: every account reads the same
   * effective status, access decision, denial reason and membership view at the end of the run and later.
   */
  lemma SweepsAreInvisible(
      s: Store, config: W.Config, prefix: string, steps: seq<Step>, start: Time, account: Id, req: Request, now: Time)
    requires Inv(s) && Timely(steps, prefix, start)
    requires forall a <- s.rows :: s.rows[a].updatedAt <= start
    requires LastClock(steps, start) <= now
    ensures var lazy := RowOf(Lazy(s, config, prefix, steps), account);
      var eager := RowOf(Eager(s, config, prefix, steps), account);
      && EffectiveStatus(lazy, now) == EffectiveStatus(eager, now)
      && EvaluateCivicAccess(req, lazy, now) == EvaluateCivicAccess(req, eager, now)
      && MembershipView(req, lazy, now) == MembershipView(req, eager, now)
  {
    RunsAgree(s, config, prefix, steps, start);
    var l, e := Lazy(s, config, prefix, steps), Eager(s, config, prefix, steps);
    assert RowsAgree(RowOf(l, account), RowOf(e, account), LastClock(steps, start));
    SweptReadsSame(req, RowOf(l, account), RowOf(e, account), LastClock(steps, start), now);
  }

  /** One transition in a store that holds nothing but the row it is about. */
  lemma AloneStep(s: Store, input: Input, now: Time)
    requires Inv(s) && s.accounts == map[input.account := false] && s.rows.Keys <= {input.account}
    requires input.source != TestFixture && KeyOf(input) !in s.ledger
    requires RowOf(s, input.account).Some? ==> RowOf(s, input.account).value.updatedAt <= now
    ensures var after := Transition(s, input, now, true).0;
      && Inv(after) && after.accounts == s.accounts && after.rows.Keys <= {input.account}
      && RowOf(after, input.account) == After(false, RowOf(s, input.account), input, now)
      && after.ledger.Keys == s.ledger.Keys + {KeyOf(input)}
  {
    FreshRow(s, input, now);
    TransitionKeepsInv(s, input, now, true);
    var after := Transition(s, input, now, true).0;
    hide Inv, Validate, Mutate, After;
    forall a | a in after.rows ensures a == input.account {
      assert RowOf(after, a).Some?;
    }
  }

  const LAPSED := Entitlement(Active, Some(10), false, Stripe, None, None, Some(1), None, None, 0, 0, 1)
  const SWEEP := Input(Stripe, "sweep", Expire, "a", 11, None, None, None, None)
  const SUSPEND := Input(Admin, "adm", Suspend, "a", 12, None, None, None, None)
  const PAY := Input(Stripe, "evt", Activate, "a", 13, Some(99), None, None, None)

  /** A lapsed row that is suspended ignores the payment; swept first, it ignores the suspension instead. */
  lemma LapsedRows()
    ensures var suspended := After(false, Some(LAPSED), SUSPEND, 12);
      && suspended.Some? && suspended.value.updatedAt <= 13
      && EffectiveStatus(After(false, suspended, PAY, 13), 20) == Expired
    ensures var swept := After(false, Some(LAPSED), SWEEP, 11);
      var refused := After(false, swept, SUSPEND, 12);
      && swept.Some? && swept.value.updatedAt <= 12 && refused.Some? && refused.value.updatedAt <= 13
      && EffectiveStatus(After(false, refused, PAY, 13), 20) == Active
  {
  }

  /** With an administrator's suspension in between, a sweep is visible: it decides whether a payment reactivates. */
  lemma SuspensionRevealsSweep()
    ensures var s := Store(map["a" := false], map["a" := LAPSED], map[]);
      var lazy := Transition(Transition(s, SUSPEND, 12, true).0, PAY, 13, true).0;
      var eager := Transition(Transition(Transition(s, SWEEP, 11, true).0, SUSPEND, 12, true).0, PAY, 13, true).0;
      && EffectiveStatus(RowOf(lazy, "a"), 20) == Expired
      && EffectiveStatus(RowOf(eager, "a"), 20) == Active
  {
    var s := Store(map["a" := false], map["a" := LAPSED], map[]);
    assert Inv(s);
    hide Transition, Inv, After, EffectiveStatus;
    LapsedRows();
    AloneStep(s, SUSPEND, 12);
    AloneStep(Transition(s, SUSPEND, 12, true).0, PAY, 13);
    AloneStep(s, SWEEP, 11);
    var swept := Transition(s, SWEEP, 11, true).0;
    AloneStep(swept, SUSPEND, 12);
    AloneStep(Transition(swept, SUSPEND, 12, true).0, PAY, 13);
  }
}
