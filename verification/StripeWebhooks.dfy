/**
 * Verified Stripe events and what their handlers do to membership: which deliveries reach a transition,
 * and what duplicated, reordered or late deliveries can change.
 */
module StripeWebhooks {
  import opened Prelude
  import opened MembershipTransitions

  // ---- Events -------------------------------------------------------------

  /** Period ends are in seconds; JSON may leave them out. */
  datatype Item = Item(price: string, quantity: int, periodEnd: Option<int>, annual: bool)

  datatype Subscription = Subscription(
    id: string,
    customer: Option<string>,
    items: seq<Item>,
    periodEnd: Option<int>,
    cancelAtPeriodEnd: bool,
    paused: bool,
    trial: bool)

  datatype Body =
    | CheckoutCompleted(customer: Option<string>, subscription: Option<string>, complete: bool)
    | InvoicePaid(customer: Option<string>, subscription: Option<string>)
    | PaymentFailed(customer: Option<string>)
    | SubscriptionUpdated(updated: Subscription)
    | SubscriptionDeleted(deleted: Subscription)
    | Unhandled
    | UnexpectedObject

  datatype Event = Event(id: string, versionMatches: bool, livemodeMatches: bool, body: Body)

  /** One delivery: the event, the clock, and what Stripe answers if the subscription is looked up. */
  datatype Delivery = Delivery(event: Event, now: Time, retrieved: Subscription)

  datatype Config = Config(priceId: string, production: bool, links: map<string, Id>)

  datatype Reply =
    | ReplyApplied
    | ReplyReplayed
    | ReplyIgnored(reason: string)
    | ReplyRejected(reason: string, recoverable: bool)
    | ReplyError(error: Error)

  // ---- Reading a subscription ---------------------------------------------

  function Ends(items: seq<Item>): seq<int> {
    if items == [] then
      []
    else
      var last := items[|items| - 1];
      Ends(items[..|items| - 1]) + if last.periodEnd.Some? then [last.periodEnd.value] else []
  }

  /** Every period end that the subscription mentions: its items' first, its own last. */
  function AllEnds(sub: Subscription): seq<int> {
    Ends(sub.items) + if sub.periodEnd.Some? then [sub.periodEnd.value] else []
  }

  function Max(xs: seq<int>): (m: int)
    requires xs != []
    ensures m in xs && forall x <- xs :: x <= m
  {
    if |xs| == 1 then
      xs[0]
    else
      var rest := Max(xs[1..]);
      assert forall x <- xs :: x == xs[0] || x in xs[1..];
      if xs[0] >= rest then xs[0] else rest
  }

  function CurrentPeriodEnd(sub: Subscription): Option<int> {
    if AllEnds(sub) == [] then None else Some(Max(AllEnds(sub)))
  }

  lemma {:induction false} EndsMembers(items: seq<Item>, t: int)
    ensures t in Ends(items) <==> exists item <- items :: item.periodEnd == Some(t)
  {
    if items != [] {
      var shorter, last := items[..|items| - 1], items[|items| - 1];
      EndsMembers(shorter, t);
      assert items == shorter + [last];
    }
  }

  /** The latest period end that the subscription or any of its items mentions. */
  lemma CurrentPeriodEndIsLatest(sub: Subscription, t: int)
    ensures CurrentPeriodEnd(sub) == Some(t) <==>
      && (sub.periodEnd == Some(t) || exists item <- sub.items :: item.periodEnd == Some(t))
      && (sub.periodEnd.Some? ==> sub.periodEnd.value <= t)
      && (forall item <- sub.items :: item.periodEnd.Some? ==> item.periodEnd.value <= t)
  {
    var all := AllEnds(sub);
    forall u: int
      ensures u in all <==> sub.periodEnd == Some(u) || exists item <- sub.items :: item.periodEnd == Some(u)
    {
      EndsMembers(sub.items, u);
    }
    forall item <- sub.items ensures item.periodEnd.Some? ==> item.periodEnd.value in all {
    }
  }

  method ExtractCurrentPeriodEnd(sub: Subscription) returns (r: Option<int>)
    ensures r == CurrentPeriodEnd(sub)
  {
    var timestamps: seq<int> := [];
    for k := 0 to |sub.items|
      invariant timestamps == Ends(sub.items[..k])
    {
      assert sub.items[..k + 1][..k] == sub.items[..k];
      if sub.items[k].periodEnd.Some? {
        timestamps := timestamps + [sub.items[k].periodEnd.value];
      }
    }
    assert sub.items[..|sub.items|] == sub.items;
    if sub.periodEnd.Some? {
      timestamps := timestamps + [sub.periodEnd.value];
    }
    assert timestamps == AllEnds(sub);
    return if |timestamps| == 0 then None else Some(Max(timestamps));
  }

  // ---- Handlers -----------------------------------------------------------

  function AccountOf(config: Config, customer: Option<string>): Option<Id> {
    if customer.Some? && customer.value != "" && customer.value in config.links
    then Some(config.links[customer.value]) else None
  }

  /** The sole price of a one-item subscription. */
  function PriceOf(sub: Subscription): Option<string> {
    if |sub.items| == 1 then Some(sub.items[0].price) else None
  }

  function ReplyTo(out: Outcome): Reply {
    match out
    case Applied => ReplyApplied
    case Replayed => ReplyReplayed
    case StaleEvent(reason) => ReplyIgnored(reason)
    case Rejected(reason) => ReplyRejected(reason, false)
    case Thrown(error) => ReplyError(error)
  }

  function Answer(r: (Store, Outcome)): (Store, Reply) {
    (r.0, ReplyTo(r.1))
  }

  /** Writes the subscription reference onto the row, and the customer if it has none; nothing else. */
  function Linked(e: Entitlement, customer: Option<string>, subscription: string, now: Time): Entitlement {
    e.(customer := OrElse(e.customer, customer), subscription := Some(subscription),
       updatedAt := now, version := e.version + 1)
  }

  function HandleCheckout(s: Store, config: Config, d: Delivery): (Store, Reply)
    requires d.event.body.CheckoutCompleted?
  {
    var body := d.event.body;
    match AccountOf(config, body.customer)
    case None => (s, ReplyRejected("account_unresolved", true))
    case Some(account) =>
      if !body.complete then
        (s, ReplyIgnored("session_not_complete"))
      else if account !in s.rows || body.subscription.None? || body.subscription.value == ""
              || s.rows[account].subscription == body.subscription then
        (s, ReplyApplied)
      else
        var e := Linked(s.rows[account], body.customer, body.subscription.value, d.now);
        if !RowCheck(e) || Clashes(s.rows, account, e) then (s, ReplyError(ConstraintViolation))
        else (s.(rows := s.rows[account := e]), ReplyApplied)
  }

  function ActivateInput(d: Delivery, account: Id, end: int): Input
    requires d.event.body.InvoicePaid?
  {
    Input(Stripe, d.event.id, Activate, account, d.now, Some(end * 1000), d.event.body.customer,
          Some(d.retrieved.id), None)
  }

  function UpdateInput(d: Delivery, account: Id): Input
    requires d.event.body.SubscriptionUpdated?
  {
    var sub := d.event.body.updated;
    Input(Stripe, d.event.id, if sub.cancelAtPeriodEnd then ScheduleCancellation else Reactivate,
          account, d.now, None, sub.customer, Some(sub.id), Some(sub.cancelAtPeriodEnd))
  }

  function ExpireInput(d: Delivery, account: Id): Input
    requires d.event.body.SubscriptionDeleted?
  {
    var sub := d.event.body.deleted;
    Input(Stripe, d.event.id, Expire, account, d.now, None, sub.customer, Some(sub.id), None)
  }

  function HandleInvoicePaid(s: Store, config: Config, d: Delivery): (Store, Reply)
    requires d.event.body.InvoicePaid?
  {
    var body, sub := d.event.body, d.retrieved;
    match AccountOf(config, body.customer)
    case None => (s, ReplyRejected("account_unresolved", true))
    case Some(account) =>
      if body.subscription.None? || body.subscription.value == "" then
        (s, ReplyIgnored("invoice_missing_subscription"))
      else if PriceOf(sub) != Some(config.priceId) || !sub.items[0].annual then
        (s, ReplyRejected("price_mismatch", false))
      else
        match CurrentPeriodEnd(sub)
        case None => (s, ReplyRejected("missing_current_period_end", false))
        case Some(end) =>
          Answer(Transition(s, ActivateInput(d, account, end), d.now, config.production))
  }

  function HandleUpdated(s: Store, config: Config, d: Delivery): (Store, Reply)
    requires d.event.body.SubscriptionUpdated?
  {
    var sub := d.event.body.updated;
    match AccountOf(config, sub.customer)
    case None => (s, ReplyRejected("account_unresolved", true))
    case Some(account) =>
      if |sub.items| != 1 then (s, ReplyRejected("unsupported_multi_line", false))
      else if sub.items[0].quantity != 1 then (s, ReplyRejected("unsupported_quantity", false))
      else if PriceOf(sub) != Some(config.priceId) then (s, ReplyRejected("price_mismatch", false))
      else if sub.paused then (s, ReplyRejected("unsupported_pause", false))
      else if sub.trial then (s, ReplyRejected("unsupported_trial", false))
      else
        Answer(Transition(s, UpdateInput(d, account), d.now, config.production))
  }

  /** Access that has not lapsed is preserved, and then nothing records the event. */
  function HandleDeleted(s: Store, config: Config, d: Delivery): (Store, Reply)
    requires d.event.body.SubscriptionDeleted?
  {
    var sub := d.event.body.deleted;
    match AccountOf(config, sub.customer)
    case None => (s, ReplyRejected("account_unresolved", true))
    case Some(account) =>
      var row := RowOf(s, account);
      if row.Some? && row.value.accessUntil.Some? && row.value.accessUntil.value <= d.now then
        Answer(Transition(s, ExpireInput(d, account), d.now, config.production))
      else
        (s, ReplyApplied)
  }

  /** `processStripeWebhookEvent`, without its audit rows. */
  function Process(s: Store, config: Config, d: Delivery): (Store, Reply) {
    if !d.event.versionMatches then (s, ReplyRejected("api_version_mismatch", false))
    else if !d.event.livemodeMatches then (s, ReplyRejected("livemode_mismatch", false))
    else
      match d.event.body
      case CheckoutCompleted(_, _, _) => HandleCheckout(s, config, d)
      case InvoicePaid(_, _) => HandleInvoicePaid(s, config, d)
      case PaymentFailed(customer) =>
        (s, if AccountOf(config, customer).None? then ReplyIgnored("account_unresolved") else ReplyApplied)
      case SubscriptionUpdated(_) => HandleUpdated(s, config, d)
      case SubscriptionDeleted(_) => HandleDeleted(s, config, d)
      case Unhandled => (s, ReplyIgnored("unhandled_event_type"))
      case UnexpectedObject => (s, ReplyRejected("unexpected_object", false))
  }

  function Run(s: Store, config: Config, deliveries: seq<Delivery>): Store {
    if deliveries == [] then
      s
    else
      Process(Run(s, config, deliveries[..|deliveries| - 1]), config, deliveries[|deliveries| - 1]).0
  }

  // ---- Every write --------------------------------------------------------

  function LedgerKey(d: Delivery): Key {
    Key(Stripe, d.event.id)
  }

  /** The transition that a handler asks for, when it asks for one. */
  function Asked(s: Store, config: Config, d: Delivery): Option<Input> {
    if !d.event.versionMatches || !d.event.livemodeMatches then
      None
    else
      match d.event.body
      case InvoicePaid(customer, subscription) =>
        var account, end := AccountOf(config, customer), CurrentPeriodEnd(d.retrieved);
        if account.Some? && subscription.Some? && subscription.value != ""
           && PriceOf(d.retrieved) == Some(config.priceId) && d.retrieved.items[0].annual && end.Some?
        then Some(ActivateInput(d, account.value, end.value)) else None
      case SubscriptionUpdated(sub) =>
        var account := AccountOf(config, sub.customer);
        if account.Some? && PriceOf(sub) == Some(config.priceId) && sub.items[0].quantity == 1
           && !sub.paused && !sub.trial
        then Some(UpdateInput(d, account.value)) else None
      case SubscriptionDeleted(sub) =>
        var account := AccountOf(config, sub.customer);
        if account.Some? && account.value in s.rows && s.rows[account.value].accessUntil.Some?
           && s.rows[account.value].accessUntil.value <= d.now
        then Some(ExpireInput(d, account.value)) else None
      case _ => None
  }

  /** Except for checkout, a delivery does what the transition it asks for does, or nothing. */
  lemma ProcessIsAsked(s: Store, config: Config, d: Delivery)
    requires !d.event.body.CheckoutCompleted?
    ensures Process(s, config, d).0 ==
      match Asked(s, config, d)
      case None => s
      case Some(input) => Transition(s, input, d.now, config.production).0
    ensures match Asked(s, config, d)
            case None => Process(s, config, d).1 != ReplyReplayed
            case Some(input) =>
              && KeyOf(input) == LedgerKey(d) && input.effectiveAt == d.now
              && Process(s, config, d).1 == ReplyTo(Transition(s, input, d.now, config.production).1)
  {
    hide Transition, CurrentPeriodEnd;
  }

  /** The change is one new version of one row. */
  ghost predicate OneRowChanged(s: Store, after: Store) {
    exists account <- after.rows ::
      && after.rows == s.rows[account := after.rows[account]]
      && after.rows[account].version == (if account in s.rows then s.rows[account].version else 0) + 1
  }

  /** Linking a subscription touches neither status nor window nor cancel flag, and keeps every constraint. */
  lemma CheckoutKeepsAccess(s: Store, config: Config, d: Delivery)
    requires Inv(s) && d.event.body.CheckoutCompleted?
    ensures var after := Process(s, config, d).0;
      && Inv(after) && after.ledger == s.ledger && after.accounts == s.accounts
      && after.rows.Keys == s.rows.Keys
      && (forall a <- s.rows ::
            var was, now := s.rows[a], after.rows[a];
            now == was.(customer := now.customer, subscription := now.subscription,
                        updatedAt := now.updatedAt, version := now.version))
      && (after.rows != s.rows ==> OneRowChanged(s, after))
  {
    var after := Process(s, config, d).0;
    if after != s {
      var account := AccountOf(config, d.event.body.customer).value;
      WriteKeepsUnique(s.rows, account, after.rows[account]);
      assert account in after.rows;
    }
  }

  /** Every delivery keeps every constraint, and changes one row by one version at most. */
  lemma ProcessEffect(s: Store, config: Config, d: Delivery)
    requires Inv(s)
    ensures var after := Process(s, config, d).0;
      && Inv(after) && after.accounts == s.accounts
      && (forall k <- s.ledger :: k in after.ledger && after.ledger[k] == s.ledger[k])
      && (after.rows != s.rows ==> OneRowChanged(s, after))
      && (after.rows != s.rows && !d.event.body.CheckoutCompleted? ==>
            LedgerKey(d) !in s.ledger && LedgerKey(d) in after.ledger)
  {
    if d.event.body.CheckoutCompleted? {
      CheckoutKeepsAccess(s, config, d);
    } else {
      ProcessIsAsked(s, config, d);
      var input := Asked(s, config, d);
      hide Asked, Process;
      if input.Some? {
        TransitionKeepsInv(s, input.value, d.now, config.production);
        TransitionEffect(s, input.value, d.now, config.production);
      }
    }
  }

  /** A recorded event id is inert, whatever its later deliveries say and whenever they come. */
  lemma RecordedIsInert(s: Store, config: Config, d: Delivery)
    requires LedgerKey(d) in s.ledger && !d.event.body.CheckoutCompleted?
    ensures Process(s, config, d).0 == s
  {
    ProcessIsAsked(s, config, d);
    hide Asked, Process;
  }

  // ---- Whole runs ---------------------------------------------------------

  lemma {:induction false} RunKeeps(s: Store, config: Config, deliveries: seq<Delivery>)
    requires Inv(s)
    ensures var after := Run(s, config, deliveries);
      && Inv(after) && after.accounts == s.accounts
      && (forall k <- s.ledger :: k in after.ledger && after.ledger[k] == s.ledger[k])
  {
    if deliveries != [] {
      RunKeeps(s, config, deliveries[..|deliveries| - 1]);
      ProcessEffect(Run(s, config, deliveries[..|deliveries| - 1]), config, deliveries[|deliveries| - 1]);
      hide Process, Inv;
    }
  }

  lemma {:induction false} RunAppend(s: Store, config: Config, a: seq<Delivery>, b: seq<Delivery>)
    ensures Run(s, config, a + b) == Run(Run(s, config, a), config, b)
  {
    if b == [] {
      assert a + b == a;
    } else {
      assert (a + b)[..|a + b| - 1] == a + b[..|b| - 1];
      RunAppend(s, config, a, b[..|b| - 1]);
      hide Process;
    }
  }

  /** Delivery `i` of the run changes some row. */
  predicate Changes(s: Store, config: Config, deliveries: seq<Delivery>, i: nat)
    requires i < |deliveries|
  {
    Process(Run(s, config, deliveries[..i]), config, deliveries[i]).0.rows != Run(s, config, deliveries[..i]).rows
  }

  /** Of all deliveries of one event id, in any order and at any clock, one at most changes the entitlement. */
  lemma EventChangesAtMostOnce(s: Store, config: Config, deliveries: seq<Delivery>, i: nat, j: nat)
    requires Inv(s) && i < j < |deliveries|
    requires deliveries[i].event.id == deliveries[j].event.id
    requires !deliveries[i].event.body.CheckoutCompleted? && !deliveries[j].event.body.CheckoutCompleted?
    ensures !(Changes(s, config, deliveries, i) && Changes(s, config, deliveries, j))
  {
    if Changes(s, config, deliveries, i) {
      var before := Run(s, config, deliveries[..i]);
      var after := Process(before, config, deliveries[i]).0;
      RunKeeps(s, config, deliveries[..i]);
      ProcessEffect(before, config, deliveries[i]);
      assert deliveries[..i + 1][..i] == deliveries[..i];
      assert Run(s, config, deliveries[..i + 1]) == after;
      hide Process, Inv;
      StaysRecorded(s, config, deliveries, i + 1, j, LedgerKey(deliveries[i]));
      RecordedIsInert(Run(s, config, deliveries[..j]), config, deliveries[j]);
    }
  }

  lemma StaysRecorded(s: Store, config: Config, deliveries: seq<Delivery>, m: nat, n: nat, key: Key)
    requires Inv(s) && m <= n <= |deliveries| && key in Run(s, config, deliveries[..m]).ledger
    ensures key in Run(s, config, deliveries[..n]).ledger
  {
    hide Process, Inv;
    RunKeeps(s, config, deliveries[..m]);
    assert deliveries[..n] == deliveries[..m] + deliveries[m..n];
    RunAppend(s, config, deliveries[..m], deliveries[m..n]);
    RunKeeps(Run(s, config, deliveries[..m]), config, deliveries[m..n]);
  }

  /** A delivery whose id is already recorded can be dropped from anywhere in a run: rows and ledger end the same. */
  lemma RecordedRepeatDrops(s: Store, config: Config, a: seq<Delivery>, d: Delivery, b: seq<Delivery>)
    requires LedgerKey(d) in Run(s, config, a).ledger && !d.event.body.CheckoutCompleted?
    ensures Run(s, config, a + [d] + b) == Run(s, config, a + b)
  {
    RecordedIsInert(Run(s, config, a), config, d);
    RunAppend(s, config, a + [d], b);
    RunAppend(s, config, a, b);
    assert (a + [d])[..|a|] == a;
  }

  /** The deliveries without those whose id was recorded by the time they came. */
  function Unrecorded(s: Store, config: Config, deliveries: seq<Delivery>): seq<Delivery> {
    if deliveries == [] then
      []
    else
      var shorter, last := deliveries[..|deliveries| - 1], deliveries[|deliveries| - 1];
      var repeated := !last.event.body.CheckoutCompleted? && LedgerKey(last) in Run(s, config, shorter).ledger;
      Unrecorded(s, config, shorter) + if repeated then [] else [last]
  }

  /** All of those can be left out of a run at once. */
  lemma {:induction false} RecordedRepeatsDrop(s: Store, config: Config, deliveries: seq<Delivery>)
    ensures Run(s, config, Unrecorded(s, config, deliveries)) == Run(s, config, deliveries)
  {
    if deliveries != [] {
      var shorter, last := deliveries[..|deliveries| - 1], deliveries[|deliveries| - 1];
      var kept := Unrecorded(s, config, shorter);
      RecordedRepeatsDrop(s, config, shorter);
      if !last.event.body.CheckoutCompleted? && LedgerKey(last) in Run(s, config, shorter).ledger {
        RecordedIsInert(Run(s, config, shorter), config, last);
        assert kept + [] == kept;
      } else {
        assert (kept + [last])[..|kept|] == kept;
      }
      hide Process;
    }
  }

  function RowVersion(s: Store, account: Id): nat {
    if account in s.rows then s.rows[account].version else 0
  }

  function ChangeCount(s: Store, config: Config, deliveries: seq<Delivery>, account: Id): nat {
    if deliveries == [] then
      0
    else
      var before := Run(s, config, deliveries[..|deliveries| - 1]);
      var after := Process(before, config, deliveries[|deliveries| - 1]).0;
      ChangeCount(s, config, deliveries[..|deliveries| - 1], account)
      + if RowOf(after, account) != RowOf(before, account) then 1 else 0
  }

  /** The version of a row counts its changes, one each. */
  lemma {:induction false} VersionCountsChanges(s: Store, config: Config, deliveries: seq<Delivery>, account: Id)
    requires Inv(s)
    ensures RowVersion(Run(s, config, deliveries), account)
         == RowVersion(s, account) + ChangeCount(s, config, deliveries, account)
  {
    if deliveries != [] {
      var shorter := deliveries[..|deliveries| - 1];
      var before := Run(s, config, shorter);
      VersionCountsChanges(s, config, shorter, account);
      RunKeeps(s, config, shorter);
      ProcessEffect(before, config, deliveries[|deliveries| - 1]);
      hide Process, Inv;
      var after := Process(before, config, deliveries[|deliveries| - 1]).0;
      if after.rows != before.rows {
        var changed :| changed in after.rows
          && after.rows == before.rows[changed := after.rows[changed]]
          && after.rows[changed].version == (if changed in before.rows then before.rows[changed].version else 0) + 1;
        assert changed == account || RowOf(after, account) == RowOf(before, account);
      }
    }
  }

  // ---- Redelivery ---------------------------------------------------------

  /** What a recorded event answers to another delivery of its id, by any handler. */
  lemma RedeliveryReplaysExactly(s: Store, config: Config, d: Delivery, later: Delivery)
    requires LedgerKey(d) == LedgerKey(later) && !d.event.body.CheckoutCompleted?
    requires !later.event.body.CheckoutCompleted?
    requires LedgerKey(d) !in s.ledger && LedgerKey(d) in Process(s, config, d).0.ledger
    ensures var after := Process(s, config, d).0;
      && Process(after, config, later).0 == after
      && (Process(after, config, later).1 == ReplyReplayed <==>
            later.now == d.now && Asked(after, config, later) == Asked(s, config, d))
      && (Asked(after, config, later).Some? && Asked(after, config, later) != Asked(s, config, d) ==>
            Process(after, config, later).1 == ReplyRejected("payload_hash_mismatch", false))
  {
    var after := Process(s, config, d).0;
    ProcessIsAsked(s, config, d);
    ProcessIsAsked(after, config, later);
    hide Process, Asked;
    RecordedPayload(s, Asked(s, config, d).value, d.now, config.production);
    if Asked(after, config, later).Some? {
      RecordedOutcome(after, Asked(after, config, later).value, later.now, config.production);
    }
  }

  lemma RecordedPayload(s: Store, input: Input, now: Time, production: bool)
    requires KeyOf(input) !in s.ledger && KeyOf(input) in Transition(s, input, now, production).0.ledger
    ensures Transition(s, input, now, production).0.ledger[KeyOf(input)].payload == input
  {
    hide Validate, Mutate, RowCheck, Clashes;
  }

  lemma RecordedOutcome(s: Store, input: Input, now: Time, production: bool)
    requires KeyOf(input) in s.ledger && input.source == Stripe
    ensures Transition(s, input, now, production)
         == (s, if s.ledger[KeyOf(input)].payload == input then Replayed else Rejected("payload_hash_mismatch"))
  {
    hide Fresh;
  }

  /** The same delivery again replays; the same event at another clock never does. */
  lemma RedeliveryAtLaterClockMismatches(s: Store, config: Config, d: Delivery, later: Delivery)
    requires d.event == later.event && !d.event.body.CheckoutCompleted?
    requires LedgerKey(d) !in s.ledger && LedgerKey(d) in Process(s, config, d).0.ledger
    ensures var after := Process(s, config, d).0;
      && Process(after, config, d).1 == ReplyReplayed
      && (later.now != d.now ==>
            && Process(after, config, later).1 != ReplyReplayed
            && (Asked(after, config, later).Some? ==>
                  Process(after, config, later).1 == ReplyRejected("payload_hash_mismatch", false)))
  {
    var after := Process(s, config, d).0;
    ProcessIsAsked(s, config, d);
    ProcessIsAsked(after, config, later);
    AskedAgain(s, config, d);
    RedeliveryReplaysExactly(s, config, d, d);
    RedeliveryReplaysExactly(s, config, d, later);
    hide Process, Asked;
  }

  /** What a delivery did does not change what it asks for. */
  lemma AskedAgain(s: Store, config: Config, d: Delivery)
    requires !d.event.body.CheckoutCompleted? && LedgerKey(d) in Process(s, config, d).0.ledger
    requires LedgerKey(d) !in s.ledger
    ensures Asked(Process(s, config, d).0, config, d) == Asked(s, config, d)
  {
    ProcessIsAsked(s, config, d);
    if d.event.body.SubscriptionDeleted? && Asked(s, config, d).Some? {
      ExpireKeepsWindow(s, Asked(s, config, d).value, d.now, config.production);
    }
    hide Process, Transition, CurrentPeriodEnd;
  }

  lemma ExpireKeepsWindow(s: Store, input: Input, now: Time, production: bool)
    requires input.kind == Expire && input.account in s.rows
    ensures var after := Transition(s, input, now, production).0;
      input.account in after.rows && after.rows[input.account].accessUntil == s.rows[input.account].accessUntil
  {
    hide RowCheck, Clashes;
  }

  /**
   * A deletion that preserves unlapsed access is not recorded, so its redelivery is not inert: with a clock
   * that has not run backwards, it changes the row exactly when access lapsed in between.
   */
  lemma DeletionRedeliveryExactly(s: Store, config: Config, d: Delivery, later: Delivery, account: Id)
    requires Inv(s) && d.event == later.event && d.event.body.SubscriptionDeleted?
    requires d.event.versionMatches && d.event.livemodeMatches
    requires AccountOf(config, d.event.body.deleted.customer) == Some(account)
    requires account in s.accounts && account in s.rows
    requires s.rows[account].createdAt <= d.now <= later.now
    ensures var after, row := Process(s, config, d).0, s.rows[account];
      Process(after, config, later).0.rows != after.rows <==>
        && LedgerKey(d) !in s.ledger
        && row.status in {Active, Cancelling}
        && d.now < row.accessUntil.value <= later.now
  {
    var row, after := s.rows[account], Process(s, config, d).0;
    assert RowInv(row);
    ProcessIsAsked(s, config, d);
    ProcessIsAsked(after, config, later);
    hide Process, Asked;
    if row.accessUntil.Some? && row.accessUntil.value <= d.now {
      DeletionRecorded(s, config, d, account);
      RecordedIsInert(after, config, later);
    } else {
      ExpireApplies(s, config, later, account);
    }
  }

  const OPEN := Config("price", true, map["cus" := "a"])
  const ENDED := Subscription("sub", Some("cus"), [], None, false, false, false)

  /** Access until 10, deleted at 5 and delivered again at 11: the second delivery expires the row. */
  lemma DeletionStrikesTwice()
    ensures var row := Entitlement(Active, Some(10), false, Stripe, None, Some("sub"), Some(1), None, None, 0, 0, 1);
      var s := Store(map["a" := false], map["a" := row], map[]);
      var event := Event("evt", true, true, SubscriptionDeleted(ENDED));
      var first := Process(s, OPEN, Delivery(event, 5, ENDED));
      var second := Process(first.0, OPEN, Delivery(event, 11, ENDED));
      && first == (s, ReplyApplied)
      && "a" in second.0.rows && second.0.rows["a"].status == Expired && second.1 == ReplyApplied
  {
  }

  lemma DeletionRecorded(s: Store, config: Config, d: Delivery, account: Id)
    requires Inv(s) && d.event.body.SubscriptionDeleted?
    requires account in s.accounts && account in s.rows && s.rows[account].createdAt <= d.now
    ensures LedgerKey(d) in Transition(s, ExpireInput(d, account), d.now, config.production).0.ledger
  {
    var input, row := ExpireInput(d, account), RowOf(s, account);
    assert RowInv(s.rows[account]) && !Clashes(s.rows, account, s.rows[account]);
    if Validate(s.accounts[account], row, input) == Apply {
      MutateKeepsRowInv(s.accounts[account], row, input, d.now);
    }
  }

  lemma ExpireApplies(s: Store, config: Config, d: Delivery, account: Id)
    requires Inv(s) && d.event.body.SubscriptionDeleted?
    requires account in s.accounts && account in s.rows && s.rows[account].createdAt <= d.now
    ensures Transition(s, ExpireInput(d, account), d.now, config.production).0.rows != s.rows <==>
      && LedgerKey(d) !in s.ledger
      && s.rows[account].status in {Active, Cancelling}
      && s.rows[account].accessUntil.Some? && s.rows[account].accessUntil.value <= d.now
  {
    var input, row := ExpireInput(d, account), RowOf(s, account);
    TransitionEffect(s, input, d.now, config.production);
    assert RowInv(s.rows[account]) && !Clashes(s.rows, account, s.rows[account]);
    if Validate(s.accounts[account], row, input) == Apply {
      MutateKeepsRowInv(s.accounts[account], row, input, d.now);
    }
  }

  // ---- Deliveries and paid access -----------------------------------------

  predicate PaidAt(row: Option<Entitlement>, t: Time) {
    row.Some? && row.value.status in {Active, Cancelling} && Earlier(t, row.value.accessUntil)
  }

  predicate HeldByOther(s: Store, account: Id, subscription: string) {
    exists a <- s.rows :: a != account && s.rows[a].source == Stripe && s.rows[a].subscription == Some(subscription)
  }

  /** An invoice that replaces the later window of a cancelling row by one that ends by `t`. */
  predicate Shortens(s: Store, config: Config, d: Delivery, account: Id, t: Time)
    requires account in s.accounts && account in s.rows
  {
    var input := Asked(s, config, d);
    && input.Some? && input.value.kind == Activate && input.value.account == account
    && LedgerKey(d) !in s.ledger
    && s.rows[account].status == Cancelling && !s.accounts[account] && s.rows[account].createdAt <= d.now
    && d.now < input.value.accessUntil.value <= t
    && !HeldByOther(s, account, d.retrieved.id)
  }

  /** What a delivery asks for is an activation, a change of the cancel flag, or the end of lapsed access. */
  lemma AskedKinds(s: Store, config: Config, d: Delivery)
    requires Asked(s, config, d).Some?
    ensures var input := Asked(s, config, d).value;
      && input.kind in {Activate, ScheduleCancellation, Reactivate, Expire} && input.effectiveAt == d.now
      && KeyOf(input) == LedgerKey(d) && input.source == Stripe
      && (input.kind == Activate ==> input.accessUntil.Some? && input.subscription == Some(d.retrieved.id))
      && (input.kind == Expire ==>
            && input.account in s.rows && s.rows[input.account].accessUntil.Some?
            && s.rows[input.account].accessUntil.value <= d.now)
  {
  }

  /** Access paid beyond `t` survives every delivery by `t`, except exactly an invoice that shortens it. */
  lemma AccessLostExactly(s: Store, config: Config, d: Delivery, account: Id, t: Time)
    requires Inv(s) && account in s.accounts && PaidAt(RowOf(s, account), t) && d.now <= t
    ensures !PaidAt(RowOf(Process(s, config, d).0, account), t) <==> Shortens(s, config, d, account, t)
  {
    var input := Asked(s, config, d);
    if d.event.body.CheckoutCompleted? {
      CheckoutKeepsAccess(s, config, d);
    } else {
      ProcessIsAsked(s, config, d);
      if input.Some? {
        AskedKinds(s, config, d);
        hide Process, Asked;
        TransitionEffect(s, input.value, d.now, config.production);
        if input.value.account == account {
          TransitionKeepsPaid(s, input.value, d.now, config.production, t);
        } else {
          hide Transition;
        }
      }
    }
  }

  lemma TransitionKeepsPaid(s: Store, input: Input, now: Time, production: bool, t: Time)
    requires Inv(s) && input.account in s.accounts && input.source == Stripe && input.effectiveAt == now <= t
    requires PaidAt(RowOf(s, input.account), t)
    requires input.kind in {Activate, ScheduleCancellation, Reactivate, Expire}
    requires input.kind == Activate ==> input.accessUntil.Some? && input.subscription.Some?
    ensures !PaidAt(RowOf(Transition(s, input, now, production).0, input.account), t) <==>
      && input.kind == Activate && KeyOf(input) !in s.ledger
      && s.rows[input.account].status == Cancelling && !s.accounts[input.account]
      && s.rows[input.account].createdAt <= now < input.accessUntil.value <= t
      && !HeldByOther(s, input.account, input.subscription.value)
  {
    var closed, row := s.accounts[input.account], RowOf(s, input.account);
    assert RowInv(row.value);
    if Validate(closed, row, input) == Apply {
      MutateKeepsRowInv(closed, row, input, now);
      var e := Mutate(closed, row, input, now);
      assert input.kind == Activate ==>
        (Clashes(s.rows, input.account, e) <==> HeldByOther(s, input.account, input.subscription.value));
      hide RowInv, RowCheck;
    }
  }

  /** Access until 100 seconds, cancelling; an invoice for the period to 50 seconds reactivates it only to there. */
  lemma InvoiceShortensAccess()
    ensures var until := Some(100_000);
      var row := Entitlement(Cancelling, until, true, Stripe, None, None, Some(1), Some(2), None, 0, 0, 1);
      var s := Store(map["a" := false], map["a" := row], map[]);
      var sub := Subscription("sub", Some("cus"), [Item("price", 1, None, true)], Some(50), false, false, false);
      var d := Delivery(Event("evt", true, true, InvoicePaid(Some("cus"), Some("sub"))), 10, sub);
      var after := Process(s, OPEN, d).0;
      && PaidAt(RowOf(s, "a"), 60_000) && !PaidAt(RowOf(after, "a"), 60_000)
      && "a" in after.rows && after.rows["a"].accessUntil == Some(50_000)
  {
    var items := [Item("price", 1, None, true)];
    assert items[..0] == [];
    assert Ends(items) == [];
  }

  /** Over any run: access paid beyond `t` lasts, if no invoice on the way names a period end by `t`. */
  lemma {:induction false} RunKeepsAccess(s: Store, config: Config, deliveries: seq<Delivery>, account: Id, t: Time)
    requires Inv(s) && account in s.accounts && PaidAt(RowOf(s, account), t)
    requires forall d <- deliveries :: d.now <= t
    requires forall d <- deliveries :: d.event.body.InvoicePaid? && CurrentPeriodEnd(d.retrieved).Some? ==>
               t < CurrentPeriodEnd(d.retrieved).value * 1000
    ensures PaidAt(RowOf(Run(s, config, deliveries), account), t)
  {
    if deliveries != [] {
      var n := |deliveries| - 1;
      RunKeepsAccess(s, config, deliveries[..n], account, t);
      RunKeeps(s, config, deliveries[..n]);
      AccessLostExactly(Run(s, config, deliveries[..n]), config, deliveries[n], account, t);
      hide Process, CurrentPeriodEnd, Inv;
    }
  }

  // ---- The processor ------------------------------------------------------

  class WebhookProcessor {
    const store: MembershipStore
    const config: Config

    constructor (store: MembershipStore, config: Config)
      ensures this.store == store && this.config == config
    {
      this.store, this.config := store, config;
    }

    method ProcessEvent(d: Delivery) returns (reply: Reply)
      modifies store
      ensures (store.Contents(), reply) == Process(old(store.Contents()), config, d)
    {
      if !d.event.versionMatches {
        return ReplyRejected("api_version_mismatch", false);
      }
      if !d.event.livemodeMatches {
        return ReplyRejected("livemode_mismatch", false);
      }
      match d.event.body {
        case CheckoutCompleted(_, _, _) => reply := LinkCheckout(d);
        case InvoicePaid(_, _) => reply := ActivateFromInvoice(d);
        case PaymentFailed(customer) =>
          reply := if AccountOf(config, customer).None? then ReplyIgnored("account_unresolved") else ReplyApplied;
        case SubscriptionUpdated(_) => reply := FollowUpdate(d);
        case SubscriptionDeleted(_) => reply := ExpireOrPreserve(d);
        case Unhandled => reply := ReplyIgnored("unhandled_event_type");
        case UnexpectedObject => reply := ReplyRejected("unexpected_object", false);
      }
    }

    method LinkCheckout(d: Delivery) returns (reply: Reply)
      requires d.event.body.CheckoutCompleted?
      modifies store
      ensures (store.Contents(), reply) == HandleCheckout(old(store.Contents()), config, d)
    {
      var body, account := d.event.body, AccountOf(config, d.event.body.customer);
      if account.None? {
        return ReplyRejected("account_unresolved", true);
      }
      if !body.complete {
        return ReplyIgnored("session_not_complete");
      }
      if account.value in store.rows && body.subscription.Some? && body.subscription.value != ""
         && store.rows[account.value].subscription != body.subscription {
        var e := Linked(store.rows[account.value], body.customer, body.subscription.value, d.now);
        if !RowCheck(e) || Clashes(store.rows, account.value, e) {
          return ReplyError(ConstraintViolation);
        }
        store.rows := store.rows[account.value := e];
      }
      return ReplyApplied;
    }

    method ActivateFromInvoice(d: Delivery) returns (reply: Reply)
      requires d.event.body.InvoicePaid?
      modifies store
      ensures (store.Contents(), reply) == HandleInvoicePaid(old(store.Contents()), config, d)
    {
      var body, account := d.event.body, AccountOf(config, d.event.body.customer);
      if account.None? {
        return ReplyRejected("account_unresolved", true);
      }
      if body.subscription.None? || body.subscription.value == "" {
        return ReplyIgnored("invoice_missing_subscription");
      }
      if PriceOf(d.retrieved) != Some(config.priceId) || !d.retrieved.items[0].annual {
        return ReplyRejected("price_mismatch", false);
      }
      var end := ExtractCurrentPeriodEnd(d.retrieved);
      if end.None? {
        return ReplyRejected("missing_current_period_end", false);
      }
      var out := store.ExecuteTransition(ActivateInput(d, account.value, end.value), d.now, config.production);
      return ReplyTo(out);
    }

    method FollowUpdate(d: Delivery) returns (reply: Reply)
      requires d.event.body.SubscriptionUpdated?
      modifies store
      ensures (store.Contents(), reply) == HandleUpdated(old(store.Contents()), config, d)
    {
      var sub, account := d.event.body.updated, AccountOf(config, d.event.body.updated.customer);
      if account.None? {
        return ReplyRejected("account_unresolved", true);
      }
      if |sub.items| != 1 {
        return ReplyRejected("unsupported_multi_line", false);
      }
      if sub.items[0].quantity != 1 {
        return ReplyRejected("unsupported_quantity", false);
      }
      if PriceOf(sub) != Some(config.priceId) {
        return ReplyRejected("price_mismatch", false);
      }
      if sub.paused {
        return ReplyRejected("unsupported_pause", false);
      }
      if sub.trial {
        return ReplyRejected("unsupported_trial", false);
      }
      var out := store.ExecuteTransition(UpdateInput(d, account.value), d.now, config.production);
      return ReplyTo(out);
    }

    method ExpireOrPreserve(d: Delivery) returns (reply: Reply)
      requires d.event.body.SubscriptionDeleted?
      modifies store
      ensures (store.Contents(), reply) == HandleDeleted(old(store.Contents()), config, d)
    {
      var account := AccountOf(config, d.event.body.deleted.customer);
      if account.None? {
        return ReplyRejected("account_unresolved", true);
      }
      var accessUntil := if account.value in store.rows then store.rows[account.value].accessUntil else None;
      if accessUntil.Some? && accessUntil.value <= d.now {
        var out := store.ExecuteTransition(ExpireInput(d, account.value), d.now, config.production);
        return ReplyTo(out);
      }
      return ReplyApplied;
    }
  }
}
