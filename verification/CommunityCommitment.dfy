/**
 * A member's community: chosen by an explicit commitment, or bound once by local eligibility. Both calls
 * lock the account row, so any interleaving of them is a sequence of whole calls.
 */
module CommunityCommitment {
  import opened Prelude
  import opened MembershipTransitions
  import E = MembershipExpiry

  const COMMITMENT_VERSION := E.COMMITMENT_VERSION

  datatype Actor = Actor(
    communityId: Option<Id>,
    acceptedAt: Option<Time>,
    version: Option<string>,
    verifiedAt: Option<Time>)

  /** A call, with the entitlement row that a commitment reads. */
  datatype Call =
    | Commit(community: Id, now: Time, entitlement: Option<Entitlement>)
    | Bind(community: Id, now: Time)

  datatype Outcome =
    | Recorded(community: Id, acceptedAt: Time, editable: bool)
    | Bound(community: Id, verifiedAt: Time)
    | Locked
    | AlreadyBound
    | BindingIncomplete

  predicate HasCommitment(a: Actor) {
    a.communityId.Some? && a.acceptedAt.Some? && a.version == Some(COMMITMENT_VERSION)
  }

  /** The CHECK on the commitment columns. */
  predicate PairCheck(a: Actor) {
    || (a.acceptedAt.None? && a.version.None?)
    || (a.acceptedAt.Some? && a.version.Some? && a.communityId.Some?)
  }

  /** Paid access blocks a change of community. */
  predicate PaidAccess(entitlement: Option<Entitlement>, now: Time) {
    entitlement.Some? && E.EffectiveStatus(entitlement, now) in {Active, Cancelling}
  }

  predicate CommittedTo(a: Actor, community: Id) {
    HasCommitment(a) && a.communityId == Some(community)
  }

  // ---- One call -----------------------------------------------------------

  function Committed(a: Actor, community: Id, now: Time, entitlement: Option<Entitlement>): (Actor, Outcome) {
    var paid := PaidAccess(entitlement, now);
    if CommittedTo(a, community) then
      (a, Recorded(community, a.acceptedAt.value, !paid))
    else if paid then
      (a, Locked)
    else
      (a.(communityId := Some(community), acceptedAt := Some(now), version := Some(COMMITMENT_VERSION)),
       Recorded(community, now, true))
  }

  function BoundTo(isOwner: bool, a: Actor, community: Id, now: Time): (Actor, Outcome) {
    if a.communityId == Some(community) then
      (a, if a.verifiedAt.Some? then Bound(community, a.verifiedAt.value) else BindingIncomplete)
    else if a.communityId.None? || isOwner then
      (a.(communityId := Some(community), verifiedAt := Some(now)), Bound(community, now))
    else
      (a, AlreadyBound)
  }

  function Step(isOwner: bool, a: Actor, call: Call): (Actor, Outcome) {
    match call
    case Commit(community, now, entitlement) => Committed(a, community, now, entitlement)
    case Bind(community, now) => BoundTo(isOwner, a, community, now)
  }

  function Run(isOwner: bool, a: Actor, calls: seq<Call>): Actor {
    if calls == [] then a
    else Step(isOwner, Run(isOwner, a, calls[..|calls| - 1]), calls[|calls| - 1]).0
  }

  // ---- What a row was written for -----------------------------------------

  /** The community that the verification, and the acceptance, in the row was written for. */
  datatype Provenance = Provenance(verified: Option<Id>, accepted: Option<Id>)

  /** The call writes community, acceptance time and version. */
  predicate WritesAcceptance(a: Actor, call: Call) {
    call.Commit? && !CommittedTo(a, call.community) && !PaidAccess(call.entitlement, call.now)
  }

  /** The call writes community and verification time. */
  predicate WritesVerification(isOwner: bool, a: Actor, call: Call) {
    call.Bind? && a.communityId != Some(call.community) && (a.communityId.None? || isOwner)
  }

  function Track(isOwner: bool, a: Actor, p: Provenance, call: Call): Provenance {
    Provenance(if WritesVerification(isOwner, a, call) then Some(call.community) else p.verified,
               if WritesAcceptance(a, call) then Some(call.community) else p.accepted)
  }

  /** The actor row of one account, and whether the account is an owner. */
  class MemberActor {
    const isOwner: bool
    var actor: Actor
    ghost var provenance: Provenance

    constructor (isOwner: bool, actor: Actor, ghost provenance: Provenance)
      ensures this.isOwner == isOwner && this.actor == actor && this.provenance == provenance
    {
      this.isOwner, this.actor, this.provenance := isOwner, actor, provenance;
    }

    method RecordCommunityCommitment(community: Id, now: Time, entitlement: Option<Entitlement>) returns (out: Outcome)
      modifies this
      ensures (actor, out) == Step(isOwner, old(actor), Commit(community, now, entitlement))
      ensures provenance == Track(isOwner, old(actor), old(provenance), Commit(community, now, entitlement))
    {
      if PaidAccess(entitlement, now) {
        if HasCommitment(actor) && actor.communityId == Some(community) {
          return Recorded(community, actor.acceptedAt.value, false);
        }
        return Locked;
      }
      if HasCommitment(actor) && actor.communityId == Some(community) {
        return Recorded(community, actor.acceptedAt.value, true);
      }
      actor := actor.(communityId := Some(community), acceptedAt := Some(now), version := Some(COMMITMENT_VERSION));
      provenance := provenance.(accepted := Some(community));
      return Recorded(community, now, true);
    }

    method BindLocalEligibility(community: Id, now: Time) returns (out: Outcome)
      modifies this
      ensures (actor, out) == Step(isOwner, old(actor), Bind(community, now))
      ensures provenance == Track(isOwner, old(actor), old(provenance), Bind(community, now))
    {
      if actor.communityId.None? {
        actor := actor.(communityId := Some(community), verifiedAt := Some(now));
        provenance := provenance.(verified := Some(community));
        return Bound(community, now);
      }
      if actor.communityId == Some(community) {
        if actor.verifiedAt.None? {
          return BindingIncomplete;
        }
        return Bound(community, actor.verifiedAt.value);
      }
      if isOwner {
        actor := actor.(communityId := Some(community), verifiedAt := Some(now));
        provenance := provenance.(verified := Some(community));
        return Bound(community, now);
      }
      return AlreadyBound;
    }
  }

  // ---- What each call answers and writes ----------------------------------

  /** Repeating a choice changes nothing; another is refused while access is paid, and else recorded at once. */
  lemma CommitExactly(isOwner: bool, a: Actor, community: Id, now: Time, entitlement: Option<Entitlement>)
    ensures var (after, out) := Step(isOwner, a, Commit(community, now, entitlement));
      var paying := entitlement.Some? && entitlement.value.status in {Active, Cancelling}
        && (entitlement.value.accessUntil.None? || now < entitlement.value.accessUntil.value);
      var chosen := a.communityId == Some(community) && a.acceptedAt.Some?
        && a.version == Some("community-commitment-v1");
      && (chosen ==> after == a && out == Recorded(community, a.acceptedAt.value, !paying))
      && (!chosen && paying ==> after == a && out == Locked)
      && (!chosen && !paying ==>
            && after == Actor(Some(community), Some(now), Some("community-commitment-v1"), a.verifiedAt)
            && out == Recorded(community, now, true))
  {
  }

  /** Only an owner binds a second time; a bind to the own community changes nothing and shows its time. */
  lemma BindExactly(isOwner: bool, a: Actor, community: Id, now: Time)
    ensures var (after, out) := Step(isOwner, a, Bind(community, now));
      && (a.communityId == Some(community) && a.verifiedAt.Some? ==>
            after == a && out == Bound(community, a.verifiedAt.value))
      && (a.communityId == Some(community) && a.verifiedAt.None? ==> after == a && out == BindingIncomplete)
      && (a.communityId.Some? && a.communityId != Some(community) && !isOwner ==> after == a && out == AlreadyBound)
      && (a.communityId.None? || (a.communityId != Some(community) && isOwner) ==>
            && after == Actor(Some(community), a.acceptedAt, a.version, Some(now))
            && out == Bound(community, now))
  {
  }

  // ---- While access is paid -----------------------------------------------

  ghost predicate AllPaid(calls: seq<Call>) {
    forall i :: 0 <= i < |calls| && calls[i].Commit? ==> PaidAccess(calls[i].entitlement, calls[i].now)
  }

  /** A paying non-owner's recorded community and acceptance never change, whatever is called in whatever order. */
  lemma {:induction false} PaidCommunityIsFixed(a: Actor, calls: seq<Call>)
    requires a.communityId.Some? && AllPaid(calls)
    ensures var after := Run(false, a, calls);
      after.communityId == a.communityId && after.acceptedAt == a.acceptedAt && after.version == a.version
  {
    if calls != [] {
      var n := |calls| - 1;
      assert forall i :: 0 <= i < n ==> calls[..n][i] == calls[i];
      PaidCommunityIsFixed(a, calls[..n]);
    }
  }

  /** A paying member without a commitment cannot make one, bound or not. */
  lemma {:induction false} PaidMemberCannotCommit(a: Actor, calls: seq<Call>)
    requires PairCheck(a) && !HasCommitment(a) && AllPaid(calls)
    ensures !HasCommitment(Run(false, a, calls))
    ensures Run(false, a, calls).acceptedAt == a.acceptedAt && Run(false, a, calls).version == a.version
  {
    if calls != [] {
      var n := |calls| - 1;
      assert forall i :: 0 <= i < n ==> calls[..n][i] == calls[i];
      PaidMemberCannotCommit(a, calls[..n]);
    }
  }

  /** The pair CHECK holds after every call, of owners too. */
  lemma {:induction false} PairCheckKept(isOwner: bool, a: Actor, calls: seq<Call>)
    requires PairCheck(a)
    ensures PairCheck(Run(isOwner, a, calls))
  {
    if calls != [] { PairCheckKept(isOwner, a, calls[..|calls| - 1]); }
  }

  // ---- The acceptance time ------------------------------------------------

  datatype Choice = Choice(community: Id, at: Time)

  /** The choices that could take effect: the commitment at the start, then the unpaid commitment calls. */
  function Choices(a: Actor, calls: seq<Call>): seq<Choice> {
    if calls == [] then
      if HasCommitment(a) then [Choice(a.communityId.value, a.acceptedAt.value)] else []
    else
      var last := calls[|calls| - 1];
      Choices(a, calls[..|calls| - 1])
      + if last.Commit? && !PaidAccess(last.entitlement, last.now) then [Choice(last.community, last.now)] else []
  }

  /** When the latest stretch of choices of one community began. */
  function StretchStart(choices: seq<Choice>): Time
    requires choices != []
  {
    var n := |choices| - 1;
    if n > 0 && choices[n - 1].community == choices[n].community then StretchStart(choices[..n]) else choices[n].at
  }

  /**
   * For a non-owner, over any interleaving with binds: the community is the one last chosen, accepted when
   * the present stretch of choosing it began; repeating the choice does not move that time.
   */
  lemma {:induction false} AcceptanceIsStretchStart(a: Actor, calls: seq<Call>)
    requires PairCheck(a) && Choices(a, calls) != []
    ensures var after, choices := Run(false, a, calls), Choices(a, calls);
      && HasCommitment(after)
      && after.communityId == Some(choices[|choices| - 1].community)
      && after.acceptedAt == Some(StretchStart(choices))
  {
    hide PaidAccess;
    if calls != [] {
      var shorter, last := calls[..|calls| - 1], calls[|calls| - 1];
      var before := Choices(a, shorter);
      if before != [] {
        AcceptanceIsStretchStart(a, shorter);
        if last.Commit? && !PaidAccess(last.entitlement, last.now) {
          assert Choices(a, calls)[..|before|] == before;
        } else {
          assert Choices(a, calls) == before;
        }
      } else {
        NoChoiceNoCommitment(a, shorter);
      }
    }
  }

  lemma {:induction false} NoChoiceNoCommitment(a: Actor, calls: seq<Call>)
    requires Choices(a, calls) == []
    requires PairCheck(a)
    ensures !HasCommitment(a) && !HasCommitment(Run(false, a, calls))
    ensures Run(false, a, calls).acceptedAt == a.acceptedAt && Run(false, a, calls).version == a.version
  {
    hide PaidAccess;
    if calls != [] {
      NoChoiceNoCommitment(a, calls[..|calls| - 1]);
    }
  }

  // ---- Whether a time belongs to the community ----------------------------

  function Origin(isOwner: bool, a: Actor, p: Provenance, calls: seq<Call>): Provenance {
    if calls == [] then
      p
    else
      var shorter, last := calls[..|calls| - 1], calls[|calls| - 1];
      Track(isOwner, Run(isOwner, a, shorter), Origin(isOwner, a, p, shorter), last)
  }

  /** A verification time in the row was written for the row's community. */
  predicate VerificationFits(a: Actor, p: Provenance) {
    a.verifiedAt.Some? ==> a.communityId.Some? && p.verified == a.communityId
  }

  /** A commitment in the row was made to the row's community. */
  predicate AcceptanceFits(a: Actor, p: Provenance) {
    HasCommitment(a) ==> p.accepted == a.communityId
  }

  /** An unpaid commitment of a verified member to another community. */
  predicate LeavesVerification(a: Actor, call: Call) {
    && call.Commit? && a.verifiedAt.Some? && a.communityId != Some(call.community)
    && !PaidAccess(call.entitlement, call.now)
  }

  /** An owner with a commitment binding to another community. */
  predicate LeavesAcceptance(isOwner: bool, a: Actor, call: Call) {
    call.Bind? && isOwner && HasCommitment(a) && a.communityId != Some(call.community)
  }

  /** One call moves a community away from its verification in exactly one way; two ways bring it back. */
  lemma VerificationFitsExactly(isOwner: bool, a: Actor, p: Provenance, call: Call)
    ensures VerificationFits(Step(isOwner, a, call).0, Track(isOwner, a, p, call)) <==>
      if VerificationFits(a, p) then !LeavesVerification(a, call)
      else WritesVerification(isOwner, a, call) || (WritesAcceptance(a, call) && p.verified == Some(call.community))
  {
    hide PaidAccess;
  }

  /** The same for the acceptance, which only an owner's transfer leaves behind. */
  lemma AcceptanceFitsExactly(isOwner: bool, a: Actor, p: Provenance, call: Call)
    requires PairCheck(a)
    ensures AcceptanceFits(Step(isOwner, a, call).0, Track(isOwner, a, p, call)) <==>
      if AcceptanceFits(a, p) then !LeavesAcceptance(isOwner, a, call)
      else WritesAcceptance(a, call) || (WritesVerification(isOwner, a, call) && p.accepted == Some(call.community))
  {
    hide PaidAccess;
  }

  lemma {:induction false} VerificationKeptFits(isOwner: bool, a: Actor, p: Provenance, calls: seq<Call>)
    requires VerificationFits(a, p)
    requires forall k :: 0 <= k < |calls| ==> !LeavesVerification(Run(isOwner, a, calls[..k]), calls[k])
    ensures VerificationFits(Run(isOwner, a, calls), Origin(isOwner, a, p, calls))
  {
    if calls != [] {
      var n := |calls| - 1;
      assert forall k :: 0 <= k < n ==> calls[..n][..k] == calls[..k];
      VerificationKeptFits(isOwner, a, p, calls[..n]);
      VerificationFitsExactly(isOwner, Run(isOwner, a, calls[..n]), Origin(isOwner, a, p, calls[..n]), calls[n]);
      hide VerificationFits, LeavesVerification, Step, Track;
    }
  }

  /** Along a run the verification fits throughout exactly when no call of it is a verified member's unpaid move. */
  lemma VerificationAlwaysFits(isOwner: bool, a: Actor, p: Provenance, calls: seq<Call>)
    requires VerificationFits(a, p)
    ensures (forall k :: 0 <= k <= |calls| ==>
               VerificationFits(Run(isOwner, a, calls[..k]), Origin(isOwner, a, p, calls[..k])))
       <==> (forall k :: 0 <= k < |calls| ==> !LeavesVerification(Run(isOwner, a, calls[..k]), calls[k]))
  {
    hide VerificationFits, LeavesVerification, Step, Track;
    if forall k :: 0 <= k < |calls| ==> !LeavesVerification(Run(isOwner, a, calls[..k]), calls[k]) {
      forall k | 0 <= k <= |calls|
        ensures VerificationFits(Run(isOwner, a, calls[..k]), Origin(isOwner, a, p, calls[..k]))
      {
        assert forall j :: 0 <= j < k ==> calls[..k][..j] == calls[..j];
        VerificationKeptFits(isOwner, a, p, calls[..k]);
      }
    }
    if forall k :: 0 <= k <= |calls| ==>
         VerificationFits(Run(isOwner, a, calls[..k]), Origin(isOwner, a, p, calls[..k])) {
      forall k | 0 <= k < |calls| ensures !LeavesVerification(Run(isOwner, a, calls[..k]), calls[k]) {
        assert calls[..k + 1][..k] == calls[..k];
        assert VerificationFits(Run(isOwner, a, calls[..k + 1]), Origin(isOwner, a, p, calls[..k + 1]));
        VerificationFitsExactly(isOwner, Run(isOwner, a, calls[..k]), Origin(isOwner, a, p, calls[..k]), calls[k]);
      }
    }
  }

  lemma {:induction false} AcceptanceKeptFits(isOwner: bool, a: Actor, p: Provenance, calls: seq<Call>)
    requires PairCheck(a) && AcceptanceFits(a, p)
    requires forall k :: 0 <= k < |calls| ==> !LeavesAcceptance(isOwner, Run(isOwner, a, calls[..k]), calls[k])
    ensures AcceptanceFits(Run(isOwner, a, calls), Origin(isOwner, a, p, calls))
  {
    if calls != [] {
      var n := |calls| - 1;
      assert forall k :: 0 <= k < n ==> calls[..n][..k] == calls[..k];
      AcceptanceKeptFits(isOwner, a, p, calls[..n]);
      PairCheckKept(isOwner, a, calls[..n]);
      AcceptanceFitsExactly(isOwner, Run(isOwner, a, calls[..n]), Origin(isOwner, a, p, calls[..n]), calls[n]);
      hide AcceptanceFits, LeavesAcceptance, Step, Track;
    }
  }

  /** Along a run the acceptance fits throughout exactly when no call of it is a committed owner's transfer. */
  lemma AcceptanceAlwaysFits(isOwner: bool, a: Actor, p: Provenance, calls: seq<Call>)
    requires PairCheck(a) && AcceptanceFits(a, p)
    ensures (forall k :: 0 <= k <= |calls| ==>
               AcceptanceFits(Run(isOwner, a, calls[..k]), Origin(isOwner, a, p, calls[..k])))
       <==> (forall k :: 0 <= k < |calls| ==> !LeavesAcceptance(isOwner, Run(isOwner, a, calls[..k]), calls[k]))
  {
    hide AcceptanceFits, LeavesAcceptance, Step, Track;
    if forall k :: 0 <= k < |calls| ==> !LeavesAcceptance(isOwner, Run(isOwner, a, calls[..k]), calls[k]) {
      forall k | 0 <= k <= |calls|
        ensures AcceptanceFits(Run(isOwner, a, calls[..k]), Origin(isOwner, a, p, calls[..k]))
      {
        assert forall j :: 0 <= j < k ==> calls[..k][..j] == calls[..j];
        AcceptanceKeptFits(isOwner, a, p, calls[..k]);
      }
    }
    if forall k :: 0 <= k <= |calls| ==>
         AcceptanceFits(Run(isOwner, a, calls[..k]), Origin(isOwner, a, p, calls[..k])) {
      forall k | 0 <= k < |calls| ensures !LeavesAcceptance(isOwner, Run(isOwner, a, calls[..k]), calls[k]) {
        assert calls[..k + 1][..k] == calls[..k];
        assert AcceptanceFits(Run(isOwner, a, calls[..k + 1]), Origin(isOwner, a, p, calls[..k + 1]));
        PairCheckKept(isOwner, a, calls[..k]);
        AcceptanceFitsExactly(isOwner, Run(isOwner, a, calls[..k]), Origin(isOwner, a, p, calls[..k]), calls[k]);
      }
    }
  }

  /** A member verified for one community who then commits to another keeps the old verification time. */
  lemma CommitmentKeepsOldVerification(a: Id, b: Id, t1: Time, t2: Time)
    requires a != b
    ensures var start, calls := Actor(None, None, None, None), [Bind(a, t1), Commit(b, t2, None)];
      var moved, origin := Run(false, start, calls), Origin(false, start, Provenance(None, None), calls);
      && moved.communityId == Some(b) && moved.verifiedAt == Some(t1) && origin.verified == Some(a)
      && !VerificationFits(moved, origin) && Step(false, moved, Bind(b, t2)).1 == Bound(b, t1)
  {
    RunTwo(false, Actor(None, None, None, None), Provenance(None, None), Bind(a, t1), Commit(b, t2, None));
  }

  /** An owner's transfer carries a valid commitment to a community that was never accepted. */
  lemma TransferKeepsOldAcceptance(a: Id, b: Id, t1: Time, t2: Time)
    requires a != b
    ensures var start, calls := Actor(None, None, None, None), [Commit(a, t1, None), Bind(b, t2)];
      var moved, origin := Run(true, start, calls), Origin(true, start, Provenance(None, None), calls);
      && CommittedTo(moved, b) && moved.acceptedAt == Some(t1) && origin.accepted == Some(a)
      && !AcceptanceFits(moved, origin)
  {
    RunTwo(true, Actor(None, None, None, None), Provenance(None, None), Commit(a, t1, None), Bind(b, t2));
  }

  lemma RunTwo(isOwner: bool, a: Actor, p: Provenance, first: Call, second: Call)
    ensures var between := Step(isOwner, a, first).0;
      && Run(isOwner, a, [first, second]) == Step(isOwner, between, second).0
      && Origin(isOwner, a, p, [first, second])
           == Track(isOwner, between, Track(isOwner, a, p, first), second)
  {
    assert [first, second][..1] == [first] && [first][..0] == [];
    hide Step, Track;
    assert Run(isOwner, a, []) == a && Origin(isOwner, a, p, []) == p;
    assert Run(isOwner, a, [first]) == Step(isOwner, a, first).0;
    assert Origin(isOwner, a, p, [first]) == Track(isOwner, a, p, first);
  }

  /** A commitment says what was accepted: the community of the choice made at the acceptance time. */
  ghost predicate Faithful(a: Actor, choices: seq<Choice>) {
    HasCommitment(a) ==>
      exists i :: 0 <= i < |choices| && choices[i] == Choice(a.communityId.value, a.acceptedAt.value)
  }

  lemma {:induction false} StretchStartIsChoice(choices: seq<Choice>) returns (i: nat)
    requires choices != []
    ensures i < |choices| && choices[i] == Choice(choices[|choices| - 1].community, StretchStart(choices))
  {
    var n := |choices| - 1;
    if n > 0 && choices[n - 1].community == choices[n].community {
      i := StretchStartIsChoice(choices[..n]);
    } else {
      i := n;
    }
  }

  /** For non-owners every commitment was chosen, in so many words, at its acceptance time. */
  lemma CommitmentsAreFaithful(a: Actor, calls: seq<Call>)
    requires PairCheck(a)
    ensures Faithful(Run(false, a, calls), Choices(a, calls))
  {
    if Choices(a, calls) == [] {
      NoChoiceNoCommitment(a, calls);
    } else {
      AcceptanceIsStretchStart(a, calls);
      var i := StretchStartIsChoice(Choices(a, calls));
    }
  }
}
