/**
 * What a sweep leaves behind and reports, for every store and every list of candidates; that a sweep is a run of single
 * steps; and what can be read of a membership, obstacle by obstacle.
 */
module ExpiryLaws {
  import opened Prelude
  import opened MembershipTransitions
  import opened MembershipExpiry
  import Laws = MembershipLaws
  import W = StripeWebhooks

  // ---- The ids of a sweep -------------------------------------------------

  function EventId(prefix: string, c: Candidate): string {
    prefix + c.account + ":" + c.accessUntilText
  }

  /** Candidates with one event id are of one account. */
  ghost predicate IdsTellAccounts(prefix: string, cs: seq<Candidate>) {
    forall i, j :: 0 <= i < |cs| && 0 <= j < |cs| && EventId(prefix, cs[i]) == EventId(prefix, cs[j]) ==>
      cs[i].account == cs[j].account
  }

  /** It is so for accounts whose ids, like UUIDs, contain no colon. */
  lemma UuidsTellAccounts(prefix: string, cs: seq<Candidate>)
    requires forall c <- cs :: ':' !in c.account
    ensures IdsTellAccounts(prefix, cs)
  {
    forall i, j | 0 <= i < |cs| && 0 <= j < |cs| && EventId(prefix, cs[i]) == EventId(prefix, cs[j])
      ensures cs[i].account == cs[j].account
    {
      assert cs[i] in cs && cs[j] in cs;
      SameIdSameAccount(prefix, cs[i], cs[j]);
    }
  }

  lemma SameIdSameAccount(prefix: string, c: Candidate, d: Candidate)
    requires EventId(prefix, c) == EventId(prefix, d) && ':' !in c.account && ':' !in d.account
    ensures c.account == d.account
  {
    var x := c.account + ":" + c.accessUntilText;
    assert EventId(prefix, c) == prefix + x;
    assert EventId(prefix, d) == prefix + (d.account + ":" + d.accessUntilText);
    assert x == EventId(prefix, c)[|prefix|..];
    FirstColon(c.account, c.accessUntilText, d.account, d.accessUntilText);
    FirstColon(d.account, d.accessUntilText, c.account, c.accessUntilText);
    assert c.account == x[..|c.account|] && d.account == x[..|d.account|];
  }

  lemma FirstColon(a: string, after: string, b: string, rest: string)
    requires a + ":" + after == b + ":" + rest && ':' !in a
    ensures |a| <= |b|
  {
    assert (b + ":" + rest)[|b|] == ':';
    assert forall i :: 0 <= i < |a| ==> (a + ":" + after)[i] == a[i] && a[i] in a;
  }

  // ---- What a sweep writes ------------------------------------------------

  predicate Unheard(s: Store, source: Source, prefix: string, c: Candidate) {
    Key(source, EventId(prefix, c)) !in s.ledger
  }

  /** A paid row whose window is over. */
  predicate Lapsed(s: Store, account: Id, now: Time) {
    && account in s.rows && s.rows[account].status in {Active, Cancelling}
    && s.rows[account].accessUntil.Some? && s.rows[account].accessUntil.value <= now
  }

  /** The sweep will expire the row: it has lapsed, and some candidate of it is new. */
  predicate Due(
      s: Store, source: Source, prefix: string, cs: seq<Candidate>, now: Time, production: bool, account: Id)
  {
    && !(source == TestFixture && production) && account in s.accounts
    && Lapsed(s, account, now) && s.rows[account].createdAt <= now
    && exists i :: 0 <= i < |cs| && cs[i].account == account && Unheard(s, source, prefix, cs[i])
  }

  function Expiring(row: Entitlement, now: Time): Entitlement {
    row.(status := Expired, cancelAtPeriodEnd := false, cancellationRequestedAt := None,
         expiredAt := Some(now), updatedAt := now, version := row.version + 1)
  }

  lemma {:induction false} SweepKeeps(
      s: Store, source: Source, prefix: string, cs: seq<Candidate>, now: Time, production: bool)
    requires Inv(s)
    ensures var after := Sweep(s, source, prefix, cs, now, production);
      && Inv(after) && after.accounts == s.accounts
      && (forall key <- s.ledger :: key in after.ledger)
      && (forall key <- after.ledger ::
            key in s.ledger || exists i :: 0 <= i < |cs| && key == Key(source, EventId(prefix, cs[i])))
  {
    if cs != [] {
      var n := |cs| - 1;
      SweepKeeps(s, source, prefix, cs[..n], now, production);
      var before, input := Sweep(s, source, prefix, cs[..n], now, production), SweepInput(source, prefix, cs[n], now);
      TransitionKeepsInv(before, input, now, production);
      TransitionEffect(before, input, now, production);
      hide Transition, Inv;
      assert KeyOf(input) == Key(source, EventId(prefix, cs[n]));
      var after := Sweep(s, source, prefix, cs, now, production);
      forall key | key in after.ledger && key !in s.ledger
        ensures exists i :: 0 <= i < |cs| && key == Key(source, EventId(prefix, cs[i]))
      {
        if key != KeyOf(input) {
          var i :| 0 <= i < n && key == Key(source, EventId(prefix, cs[..n][i]));
          assert cs[i] == cs[..n][i];
        }
      }
    }
  }

  /** One candidate: its row expires if the event is new and the row has lapsed; no other row is touched. */
  lemma SweepOneExactly(s: Store, source: Source, prefix: string, c: Candidate, now: Time, production: bool)
    requires Inv(s)
    ensures var (after, out) := Transition(s, SweepInput(source, prefix, c, now), now, production);
      var expires := Unheard(s, source, prefix, c) && !(source == TestFixture && production)
        && c.account in s.accounts && Lapsed(s, c.account, now) && s.rows[c.account].createdAt <= now;
      && (out == Applied <==> expires)
      && after.rows == if expires then s.rows[c.account := Expiring(s.rows[c.account], now)] else s.rows
  {
    var input := SweepInput(source, prefix, c, now);
    assert input.eventId == EventId(prefix, c);
    if !Laws.Heard(s, input, production) {
      Laws.NotHeardExactly(s, input, now, production);
    } else if c.account !in s.rows {
      Laws.NoRowExactly(s, input, now, production);
    } else {
      Laws.ExpireExactly(s, input, now, production);
    }
    hide Transition, Inv;
  }

  /** After a sweep exactly the due rows are expired, at its clock, and every other row is as it was. */
  lemma {:induction false} SweepExactly(
      s: Store, source: Source, prefix: string, cs: seq<Candidate>, now: Time, production: bool, account: Id)
    requires Inv(s) && IdsTellAccounts(prefix, cs)
    ensures RowOf(Sweep(s, source, prefix, cs, now, production), account) ==
      if Due(s, source, prefix, cs, now, production, account)
      then Some(Expiring(s.rows[account], now)) else RowOf(s, account)
  {
    if cs != [] {
      var n := |cs| - 1;
      var shorter, c := cs[..n], cs[n];
      assert forall i :: 0 <= i < n ==> shorter[i] == cs[i];
      assert IdsTellAccounts(prefix, shorter);
      SweepLast(s, source, prefix, cs, now, production);
      hide Transition, SweepInput, Inv, Due, Lapsed, Unheard, Sweep, Expiring, IdsTellAccounts, EventId;
      SweepExactly(s, source, prefix, shorter, now, production, account);
      SweepKeeps(s, source, prefix, shorter, now, production);
      var before := Sweep(s, source, prefix, shorter, now, production);
      SweepOneExactly(before, source, prefix, c, now, production);
      DueGrows(s, source, prefix, cs, now, production, account);
      if c.account == account {
        LastCandidate(s, source, prefix, cs, now, production);
      }
    }
  }

  lemma SweepLast(s: Store, source: Source, prefix: string, cs: seq<Candidate>, now: Time, production: bool)
    requires cs != []
    ensures var n := |cs| - 1;
      Sweep(s, source, prefix, cs, now, production) ==
        Transition(Sweep(s, source, prefix, cs[..n], now, production),
                   SweepInput(source, prefix, cs[n], now), now, production).0
  {
    hide Transition;
  }

  /** One more candidate makes only its own account's row due. */
  lemma DueGrows(
      s: Store, source: Source, prefix: string, cs: seq<Candidate>, now: Time, production: bool, account: Id)
    requires cs != []
    ensures var n := |cs| - 1;
      Due(s, source, prefix, cs, now, production, account) <==>
        || Due(s, source, prefix, cs[..n], now, production, account)
        || (cs[n].account == account && Due(s, source, prefix, [cs[n]], now, production, account))
  {
    var n := |cs| - 1;
    assert forall i :: 0 <= i < n ==> cs[..n][i] == cs[i];
    assert [cs[n]][0] == cs[n];
  }

  /** When the last candidate's turn comes, its event is new and its row lapsed exactly if only now the row is due. */
  lemma LastCandidate(
      s: Store, source: Source, prefix: string, cs: seq<Candidate>, now: Time, production: bool)
    requires Inv(s) && IdsTellAccounts(prefix, cs) && cs != []
    requires var n := |cs| - 1;
      RowOf(Sweep(s, source, prefix, cs[..n], now, production), cs[n].account) ==
        if Due(s, source, prefix, cs[..n], now, production, cs[n].account)
        then Some(Expiring(s.rows[cs[n].account], now)) else RowOf(s, cs[n].account)
    ensures var n, c := |cs| - 1, cs[|cs| - 1];
      var before := Sweep(s, source, prefix, cs[..n], now, production);
      (&& Unheard(before, source, prefix, c) && !(source == TestFixture && production)
       && c.account in before.accounts && Lapsed(before, c.account, now) && before.rows[c.account].createdAt <= now)
      <==> Due(s, source, prefix, [c], now, production, c.account)
           && !Due(s, source, prefix, cs[..n], now, production, c.account)
  {
    var n, c := |cs| - 1, cs[|cs| - 1];
    var before := Sweep(s, source, prefix, cs[..n], now, production);
    SweepKeeps(s, source, prefix, cs[..n], now, production);
    assert [c][0] == c;
    if !Unheard(before, source, prefix, c) && Unheard(s, source, prefix, c) {
      var i :| 0 <= i < n && Key(source, EventId(prefix, c)) == Key(source, EventId(prefix, cs[..n][i]));
      assert cs[..n][i] == cs[i];
      assert Unheard(s, source, prefix, cs[..n][i]) && cs[i].account == c.account;
    }
    hide Inv, Sweep;
  }

  // ---- What a sweep reports -----------------------------------------------

  /** A candidate is reported as applied exactly when its own turn made the row expire. */
  lemma ResultExactly(
      s: Store, source: Source, prefix: string, cs: seq<Candidate>, now: Time, production: bool, k: nat)
    requires Inv(s) && IdsTellAccounts(prefix, cs) && k < |cs|
    ensures var before := Sweep(s, source, prefix, cs[..k], now, production);
      var applied := Transition(before, SweepInput(source, prefix, cs[k], now), now, production).1 == Applied;
      && (applied <==> Sweep(s, source, prefix, cs[..k + 1], now, production).rows != before.rows)
      && (applied <==>
            && Due(s, source, prefix, cs[..k + 1], now, production, cs[k].account)
            && !Due(s, source, prefix, cs[..k], now, production, cs[k].account))
  {
    var shorter, longer := cs[..k], cs[..k + 1];
    var before := Sweep(s, source, prefix, shorter, now, production);
    assert longer[..k] == shorter && longer[k] == cs[k] && |longer| == k + 1;
    assert forall i :: 0 <= i <= k ==> longer[i] == cs[i];
    assert forall i :: 0 <= i < k ==> shorter[i] == cs[i];
    SweepExactly(s, source, prefix, shorter, now, production, cs[k].account);
    SweepKeeps(s, source, prefix, shorter, now, production);
    SweepOneExactly(before, source, prefix, cs[k], now, production);
    DueGrows(s, source, prefix, longer, now, production, cs[k].account);
    hide Inv, Due;
    LastCandidate(s, source, prefix, longer, now, production);
    TransitionEffect(before, SweepInput(source, prefix, cs[k], now), now, production);
    hide Transition;
  }

  /** A sweep whose candidates cover the lapsed rows, all new, leaves no lapsed row behind. */
  lemma SweepClears(
      s: Store, source: Source, prefix: string, cs: seq<Candidate>, now: Time, production: bool, account: Id)
    requires Inv(s) && IdsTellAccounts(prefix, cs) && !(source == TestFixture && production)
    requires forall a <- s.rows :: a in s.accounts && s.rows[a].createdAt <= now
    requires forall a <- s.rows :: Lapsed(s, a, now) ==>
               exists i :: 0 <= i < |cs| && cs[i].account == a && Unheard(s, source, prefix, cs[i])
    ensures !Lapsed(Sweep(s, source, prefix, cs, now, production), account, now)
  {
    SweepExactly(s, source, prefix, cs, now, production, account);
    hide Inv, Sweep;
  }

  // ---- A sweep is a run of steps ------------------------------------------

  function StepsOf(source: Source, cs: seq<Candidate>, now: Time): seq<Step> {
    seq(|cs|, i requires 0 <= i < |cs| => SweepOne(source, cs[i], now))
  }

  /** So what holds of runs with single sweeping steps holds of sweeps. */
  lemma {:induction false} SweepIsRun(
      s: Store, config: W.Config, source: Source, prefix: string, cs: seq<Candidate>, now: Time)
    ensures Eager(s, config, prefix, StepsOf(source, cs, now)) == Sweep(s, source, prefix, cs, now, config.production)
    ensures Lazy(s, config, prefix, StepsOf(source, cs, now)) == s
  {
    if cs != [] {
      var n := |cs| - 1;
      SweepIsRun(s, config, source, prefix, cs[..n], now);
      var steps := StepsOf(source, cs, now);
      assert steps[..n] == StepsOf(source, cs[..n], now) && steps[n] == SweepOne(source, cs[n], now);
      hide Transition;
    }
  }

  /** A whole sweep at a clock that no row was written after is invisible, then and later. */
  lemma SweepIsInvisible(
      s: Store, config: W.Config, source: Source, prefix: string, cs: seq<Candidate>, now: Time,
      account: Id, req: Request, later: Time)
    requires Inv(s) && now <= later && forall a <- s.rows :: s.rows[a].updatedAt <= now
    ensures var swept := Sweep(s, source, prefix, cs, now, config.production);
      && EffectiveStatus(RowOf(swept, account), later) == EffectiveStatus(RowOf(s, account), later)
      && EvaluateCivicAccess(req, RowOf(swept, account), later) == EvaluateCivicAccess(req, RowOf(s, account), later)
      && MembershipView(req, RowOf(swept, account), later) == MembershipView(req, RowOf(s, account), later)
  {
    var steps := StepsOf(source, cs, now);
    SweepIsRun(s, config, source, prefix, cs, now);
    hide Inv, Sweep, EvaluateCivicAccess, EffectiveStatus, MembershipView, Eager, Lazy;
    SweepsAreInvisible(s, config, prefix, steps, now, account, req, later);
  }

  // ---- Reading a membership -----------------------------------------------

  predicate SignedIn(req: Request) {
    req.session.Some? && req.account.Some? && req.account.value.id == req.session.value && req.account.value.active
  }

  predicate Over(row: Option<Entitlement>, now: Time) {
    row.Some? && row.value.accessUntil.Some? && row.value.accessUntil.value <= now
  }

  /** Which obstacle is reported: session and account first, then the membership, then the actor. */
  lemma MembershipDenialExactly(req: Request, row: Option<Entitlement>, now: Time)
    ensures var access := EvaluateCivicAccess(req, row, now);
      && (access == Visitor(NoSession) <==> req.session.None?)
      && (access == ReadOnly(InactiveAccount) <==> req.session.Some? && !SignedIn(req))
      && (var gated := SignedIn(req) && !req.account.value.isOwner;
          && (access == ReadOnly(NoEntitlement) <==> gated && row.None?)
          && (access == ReadOnly(ExpiredMembership) <==>
                gated && row.Some? && (Over(row, now) || row.value.status == Expired))
          && (access == ReadOnly(InactiveMembership) <==>
                gated && row.Some? && !Over(row, now)
                && row.value.status in {Inactive, PaidPendingBinding, Suspended})
          && (access == ReadOnly(ElapsedAccessUntil) <==>
                gated && row.Some? && row.value.accessUntil.None? && row.value.status in {Active, Cancelling}))
  {
  }

  lemma ActorDenialExactly(req: Request, row: Option<Entitlement>, now: Time)
    ensures var access := EvaluateCivicAccess(req, row, now);
      var admitted := SignedIn(req)
        && (req.account.value.isOwner
            || (row.Some? && row.value.status in {Active, Cancelling}
                && row.value.accessUntil.Some? && !Over(row, now)));
      && (access == ReadOnly(ActorMissing) <==> admitted && req.actor.None?)
      && (access == ReadOnly(ActorAccountMismatch) <==>
            admitted && req.actor.Some? && req.actor.value.accountId != req.session)
      && (var own := admitted && req.actor.Some? && req.actor.value.accountId == req.session;
          var here := req.communityId.None? || (own && req.actor.value.communityId == req.communityId);
          && (access == ReadOnly(ActorCommunityMismatch) <==> own && !here)
          && (access == ReadOnly(CommitmentMissing) <==>
                own && here && !(&& req.actor.value.communityId.Some? && req.actor.value.acceptedAt.Some?
                                 && req.actor.value.commitmentVersion == Some("community-commitment-v1"))))
  {
  }

  /** The status shown, and the cancel flag, which only a membership in force shows. */
  lemma ViewExactly(req: Request, row: Option<Entitlement>, now: Time)
    ensures var view := MembershipView(req, row, now);
      && view.status == (if row.None? then Inactive else if Over(row, now) then Expired else row.value.status)
      && view.accessUntil == (if row.None? then None else row.value.accessUntil)
      && (view.cancelAtPeriodEnd <==>
            row.Some? && row.value.cancelAtPeriodEnd && !Over(row, now) && row.value.status !in {Expired, Inactive})
      && view.access == EvaluateCivicAccess(req, row, now)
      && (view.isOwner <==> req.account.Some? && req.account.value.isOwner)
  {
  }

  /** An applied activation reads as active until its window ends, and as expired from then on. */
  lemma ActivationGivesAccess(s: Store, input: Input, processedAt: Time, production: bool, t: Time)
    requires Inv(s) && input.kind == Activate && Transition(s, input, processedAt, production).1 == Applied
    ensures input.accessUntil.Some?
    ensures EffectiveStatus(RowOf(Transition(s, input, processedAt, production).0, input.account), t)
         == if t < input.accessUntil.value then Active else Expired
  {
    if !Laws.Heard(s, input, production) {
      Laws.NotHeardExactly(s, input, processedAt, production);
    } else {
      Laws.ActivateExactly(s, input, processedAt, production);
    }
    hide Transition, Inv;
  }
}
