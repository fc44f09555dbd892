/**
 * The staging seed: a preflight that accepts or refuses an arbitrary database, an upsert of a fixed
 * manifest by id, and a postcheck. Rows of the load-test arena community are left out of the counts.
 */
module StagingSeed {
  import opened Prelude

  type Id = string

  // ---- Tables -------------------------------------------------------------

  /** `content` stands for the columns that are compared and copied as a whole. */
  datatype Community = Community(slug: string, position: int, locale: string, content: string)
  datatype Signal = Signal(communityId: Id, slug: string, position: int, locale: string, content: string)

  /** `extra` stands for the columns the seed neither compares nor writes: author, media, moderation. */
  datatype SignalRow = SignalRow(signal: Signal, extra: Option<string>)

  /** `profile` stands for kind, status, label and dates. */
  datatype Actor = Actor(
    profile: string,
    communityId: Option<Id>,
    accountId: Option<Id>,
    verifiedAt: Option<int>,
    commitment: Option<string>)

  datatype Confirmation = Confirmation(signalId: Id, actorId: Id)

  /** `processes` holds the signals that have a civic process, which pins their community. */
  datatype Database = Database(
    communities: map<Id, Community>,
    signals: map<Id, SignalRow>,
    actors: map<Id, Actor>,
    confirmations: map<Id, Confirmation>,
    processes: set<Id>)

  datatype Manifest = Manifest(
    arena: Id,
    communityOrder: seq<Id>,
    communities: map<Id, Community>,
    signalOrder: seq<Id>,
    signals: map<Id, Signal>,
    controlledId: Id,
    controlledProfile: string,
    controlledCommunity: Id)

  predicate SameCommunityKey(a: Community, b: Community) {
    a.slug == b.slug || a.position == b.position
  }

  predicate SameSignalKey(a: Signal, b: Signal) {
    a.communityId == b.communityId && (a.slug == b.slug || a.position == b.position)
  }

  function SignalsOf(m: Manifest, community: Id): set<Id> {
    set id | id in m.signals && m.signals[id].communityId == community
  }

  /** Facts about the shipped constants. */
  ghost predicate WellFormed(m: Manifest) {
    && Lists(m.communityOrder, m.communities.Keys) && Lists(m.signalOrder, m.signals.Keys)
    && UniqueCommunities(m) && UniqueSignals(m) && SignalsPlaced(m)
    && m.communities != map[]
    && m.arena !in m.communities
    && m.controlledCommunity in m.communities
  }

  ghost predicate Lists(order: seq<Id>, ids: set<Id>) {
    Distinct(order) && (forall id <- order :: id in ids) && (forall id <- ids :: id in order)
  }

  ghost predicate UniqueCommunities(m: Manifest) {
    forall a, b :: a in m.communities && b in m.communities && a != b ==>
      !SameCommunityKey(m.communities[a], m.communities[b])
  }

  ghost predicate UniqueSignals(m: Manifest) {
    forall a, b :: a in m.signals && b in m.signals && a != b ==> !SameSignalKey(m.signals[a], m.signals[b])
  }

  ghost predicate SignalsPlaced(m: Manifest) {
    forall id <- m.signals ::
      && m.signals[id].communityId in m.communities
      && m.signals[id].locale == m.communities[m.signals[id].communityId].locale
      && 1 <= m.signals[id].position <= |SignalsOf(m, m.signals[id].communityId)|
  }

  /** Foreign keys and unique keys of the tables. */
  ghost predicate Consistent(db: Database) {
    && (forall a, b :: a in db.communities && b in db.communities && a != b ==>
          !SameCommunityKey(db.communities[a], db.communities[b]))
    && (forall a, b :: a in db.signals && b in db.signals && a != b ==>
          !SameSignalKey(db.signals[a].signal, db.signals[b].signal))
    && (forall id <- db.signals :: db.signals[id].signal.communityId in db.communities)
    && (forall id <- db.actors :: db.actors[id].communityId.Some? ==> db.actors[id].communityId.value in db.communities)
    && (forall id <- db.confirmations ::
          db.confirmations[id].actorId in db.actors && db.confirmations[id].signalId in db.signals)
    && (forall id <- db.processes :: id in db.signals)
  }

  // ---- Counts -------------------------------------------------------------

  function CommunitiesOutside(m: Manifest, db: Database): set<Id> {
    set id | id in db.communities && id != m.arena
  }

  function SignalsOutside(m: Manifest, db: Database): set<Id> {
    set id | id in db.signals && db.signals[id].signal.communityId != m.arena
  }

  /** An actor without a community counts: `ne` against NULL is not true, so it is or'ed with `isNull`. */
  function ActorsOutside(m: Manifest, db: Database): set<Id> {
    set id | id in db.actors && db.actors[id].communityId != Some(m.arena)
  }

  /** A confirmation by an actor without a community does not count: there `ne` against NULL drops it. */
  function CountedConfirmations(m: Manifest, db: Database): set<Id> {
    set id |
      && id in db.confirmations
      && db.confirmations[id].actorId in db.actors
      && var community := db.actors[db.confirmations[id].actorId].communityId;
         community.Some? && community.value != m.arena
  }

  datatype Counts = Counts(communities: nat, signals: nat, actors: nat, controlled: nat, confirmations: nat)

  function ReadCounts(m: Manifest, db: Database): Counts {
    Counts(|CommunitiesOutside(m, db)|, |SignalsOutside(m, db)|, |ActorsOutside(m, db)|,
           if m.controlledId in db.actors then 1 else 0, |CountedConfirmations(m, db)|)
  }

  // ---- The preflight ------------------------------------------------------

  predicate CommunitiesMatch(m: Manifest, db: Database) {
    forall id <- m.communities :: id in db.communities && db.communities[id] == m.communities[id]
  }

  predicate SignalsMatch(m: Manifest, db: Database) {
    forall id <- m.signals :: id in db.signals && db.signals[id].signal == m.signals[id]
  }

  predicate ControlledMatches(m: Manifest, db: Database) {
    && m.controlledId in db.actors
    && var a := db.actors[m.controlledId];
       a.profile == m.controlledProfile && a.communityId == Some(m.controlledCommunity) && a.accountId.None?
  }

  predicate IdentityPresent(m: Manifest, db: Database) {
    && (forall id <- m.communities :: id in db.communities)
    && (forall id <- m.signals :: id in db.signals)
    && m.controlledId in db.actors && db.actors[m.controlledId].accountId.None?
  }

  predicate ExactSubset(m: Manifest, db: Database) {
    var cs, ss := CommunitiesOutside(m, db), SignalsOutside(m, db);
    && !(cs == {} && ss == {})
    && |cs| <= |m.communities| && |ss| <= |m.signals|
    && !(|cs| == |m.communities| && |ss| == |m.signals|)
    && (forall id <- cs :: id in m.communities && db.communities[id] == m.communities[id])
    && (forall id <- ss :: id in m.signals && db.signals[id].signal == m.signals[id])
    && ((exists id <- m.communities :: id !in cs) || (exists id <- m.signals :: id !in ss))
    && ControlledMatches(m, db)
  }

  datatype Refusal =
    | ControlledActorLinked | ConflictingCanonical | UnexpectedRows | ConfirmationsPresent | PartialCanonical
  datatype Baseline = Empty | Exact | ContentDrift | CanonicalSubset | Refuse(code: Refusal)

  function Assess(m: Manifest, db: Database): Baseline {
    var c := ReadCounts(m, db);
    if m.controlledId in db.actors && db.actors[m.controlledId].accountId.Some? then
      Refuse(ControlledActorLinked)
    else if c == Counts(0, 0, 0, 0, 0) then
      Empty
    else if c == Counts(|m.communities|, |m.signals|, 1, 1, 0) then
      if CommunitiesMatch(m, db) && SignalsMatch(m, db) && ControlledMatches(m, db) then Exact
      else if IdentityPresent(m, db) then ContentDrift
      else Refuse(ConflictingCanonical)
    else if c.communities > |m.communities| || c.signals > |m.signals| then
      Refuse(UnexpectedRows)
    else if ExactSubset(m, db) then
      CanonicalSubset
    else if c.confirmations > 0 then
      Refuse(ConfirmationsPresent)
    else if c.actors > 1 then
      Refuse(UnexpectedRows)
    else if (exists id <- m.communities :: id in db.communities) || (exists id <- m.signals :: id in db.signals)
            || c.controlled > 0 then
      Refuse(PartialCanonical)
    else
      Refuse(UnexpectedRows)
  }

  // ---- The mutation -------------------------------------------------------

  predicate CommunityBlocked(communities: map<Id, Community>, id: Id, row: Community) {
    exists other <- communities :: other != id && SameCommunityKey(communities[other], row)
  }

  /** `INSERT ... ON CONFLICT (id) DO UPDATE`: another row with the slug or the position aborts. */
  function PutCommunity(db: Database, id: Id, row: Community): Option<Database> {
    if CommunityBlocked(db.communities, id, row) then None else Some(db.(communities := db.communities[id := row]))
  }

  /** Some row other than `id` stands in the way of writing `row`. */
  predicate Blocked(signals: map<Id, SignalRow>, id: Id, row: Signal) {
    exists other <- signals :: other != id && SameSignalKey(signals[other].signal, row)
  }

  /** Besides the unique keys, a civic process pins the community of its signal; a new row gets a process. */
  function PutSignal(db: Database, id: Id, row: Signal): Option<Database> {
    if row.communityId !in db.communities
       || Blocked(db.signals, id, row)
       || (id in db.signals && id in db.processes && db.signals[id].signal.communityId != row.communityId)
    then None
    else
      var extra := if id in db.signals then db.signals[id].extra else None;
      var processes := if id in db.signals then db.processes else db.processes + {id};
      Some(db.(signals := db.signals[id := SignalRow(row, extra)], processes := processes))
  }

  function PutControlled(m: Manifest, db: Database): Database {
    var was := if m.controlledId in db.actors then db.actors[m.controlledId] else Actor("", None, None, None, None);
    var now := was.(profile := m.controlledProfile, communityId := Some(m.controlledCommunity),
                    accountId := None, verifiedAt := None);
    db.(actors := db.actors[m.controlledId := now])
  }

  function PutCommunities(m: Manifest, db: Database, k: nat): Option<Database>
    requires k <= |m.communityOrder| && forall id <- m.communityOrder :: id in m.communities
  {
    if k == 0 then
      Some(db)
    else
      match PutCommunities(m, db, k - 1)
      case None => None
      case Some(d) => PutCommunity(d, m.communityOrder[k - 1], m.communities[m.communityOrder[k - 1]])
  }

  function PutSignals(m: Manifest, db: Database, k: nat): Option<Database>
    requires k <= |m.signalOrder| && forall id <- m.signalOrder :: id in m.signals
  {
    if k == 0 then
      Some(db)
    else
      match PutSignals(m, db, k - 1)
      case None => None
      case Some(d) => PutSignal(d, m.signalOrder[k - 1], m.signals[m.signalOrder[k - 1]])
  }

  function Seed(m: Manifest, db: Database): Option<Database>
    requires forall id <- m.communityOrder :: id in m.communities
    requires forall id <- m.signalOrder :: id in m.signals
  {
    match PutCommunities(m, db, |m.communityOrder|)
    case None => None
    case Some(d) =>
      match PutSignals(m, d, |m.signalOrder|)
      case None => None
      case Some(e) => Some(PutControlled(m, e))
  }

  // ---- The postcheck ------------------------------------------------------

  function SignalsAt(db: Database, community: Id): set<Id> {
    set id | id in db.signals && db.signals[id].signal.communityId == community
  }

  /** The positions of `n` rows, sorted, read 1, 2, up to `n`: stated without sorting. */
  predicate Numbered(db: Database, ids: set<Id>)
    requires forall id <- ids :: id in db.signals
  {
    && (forall id <- ids :: 1 <= db.signals[id].signal.position <= |ids|)
    && (forall a, b :: a in ids && b in ids && a != b ==>
          db.signals[a].signal.position != db.signals[b].signal.position)
  }

  predicate Ordered(m: Manifest, db: Database, community: Id)
    requires community in m.communities
  {
    var actual, expected := SignalsAt(db, community), SignalsOf(m, community);
    && |actual| == |expected|
    && Numbered(db, actual)
    && (forall id <- actual :: db.signals[id].signal.locale == m.communities[community].locale)
    && expected <= actual
  }

  predicate PostInvariants(m: Manifest, db: Database, baseline: Counts) {
    && ReadCounts(m, db) == Counts(|m.communities|, |m.signals|,
                                   baseline.actors + (if baseline.controlled == 0 then 1 else 0),
                                   1, baseline.confirmations)
    && CommunitiesMatch(m, db) && SignalsMatch(m, db) && ControlledMatches(m, db)
    && (forall community <- m.communities :: Ordered(m, db, community))
  }

  // ---- One run ------------------------------------------------------------

  datatype Outcome = Seeded | AlreadyCanonical | Reconciled | CompletedSubset
  datatype Error = PreflightRefused(code: Refusal) | PostcheckFailed | WriteAborted | InjectedFailure | LockHeld

  function OutcomeOf(baseline: Baseline): Outcome
    requires baseline != Exact && !baseline.Refuse?
  {
    match baseline
    case ContentDrift => Reconciled
    case CanonicalSubset => CompletedSubset
    case _ => Seeded
  }

  function Run(m: Manifest, db: Database): (Database, Result<Outcome, Error>)
    requires forall id <- m.communityOrder :: id in m.communities
    requires forall id <- m.signalOrder :: id in m.signals
  {
    match Assess(m, db)
    case Refuse(code) => (db, Err(PreflightRefused(code)))
    case Exact =>
      (db, if PostInvariants(m, db, ReadCounts(m, db)) then Ok(AlreadyCanonical) else Err(PostcheckFailed))
    case baseline =>
      match Seed(m, db)
      case None => (db, Err(WriteAborted))
      case Some(after) =>
        if PostInvariants(m, after, ReadCounts(m, db)) then (after, Ok(OutcomeOf(baseline)))
        else (db, Err(PostcheckFailed))
  }

  // ---- Sorted positions ---------------------------------------------------

  predicate IntLeq(a: int, b: int) {
    a <= b
  }

  lemma {:induction false} StrictlyIncreasing(s: seq<int>, k: nat)
    requires k < |s| && (forall i, j :: 0 <= i < j < |s| ==> s[i] < s[j])
    ensures s[0] + k <= s[k]
  {
    if k > 0 { StrictlyIncreasing(s, k - 1); }
  }

  ghost predicate DistinctInRange(s: seq<int>) {
    (forall i :: 0 <= i < |s| ==> 1 <= s[i] <= |s|) && Distinct(s)
  }

  predicate Counting(s: seq<int>) {
    forall i :: 0 <= i < |s| ==> s[i] == i + 1
  }

  lemma SortedDistinctCounts(s: seq<int>)
    requires Sorted(IntLeq, s) && DistinctInRange(s)
    ensures Counting(s)
  {
    forall i, j | 0 <= i < j < |s| ensures s[i] < s[j] {
      assert IntLeq(s[i], s[j]);
    }
    forall i | 0 <= i < |s| ensures s[i] == i + 1 {
      StrictlyIncreasing(s, i);
      StrictlyIncreasing(s[i..], |s| - 1 - i);
    }
  }

  lemma DistinctInRangeMoves(s: seq<int>, t: seq<int>)
    requires multiset(s) == multiset(t) && DistinctInRange(s)
    ensures DistinctInRange(t)
  {
    assert |s| == |multiset(s)| == |multiset(t)| == |t|;
    PermutationDistinct(s, t);
    forall i | 0 <= i < |t| ensures 1 <= t[i] <= |t| {
      assert t[i] in multiset(s);
    }
  }

  /** The source sorts the positions and compares each with its index; that is distinctness within range. */
  lemma SortedContiguousIffNumbered(s: seq<int>)
    ensures Counting(SortBy(IntLeq, s)) <==> DistinctInRange(s)
  {
    SortBySorted(IntLeq, s);
    if Counting(SortBy(IntLeq, s)) {
      DistinctInRangeMoves(SortBy(IntLeq, s), s);
    }
    if DistinctInRange(s) {
      DistinctInRangeMoves(s, SortBy(IntLeq, s));
      SortedDistinctCounts(SortBy(IntLeq, s));
    }
  }

  // ---- When the mutation goes through -------------------------------------

  /** Writing the `k`-th community meets no other row that is still as it was. */
  predicate CommunityFree(m: Manifest, db: Database, k: nat)
    requires k < |m.communityOrder| && m.communityOrder[k] in m.communities
  {
    forall other <- db.communities :: other !in m.communityOrder[..k + 1] ==>
      !SameCommunityKey(db.communities[other], m.communities[m.communityOrder[k]])
  }

  /** Writing the `k`-th signal meets no other such row, and moves no signal that has a process. */
  predicate SignalFree(m: Manifest, db: Database, k: nat)
    requires k < |m.signalOrder| && m.signalOrder[k] in m.signals
  {
    var id := m.signalOrder[k];
    && (forall other <- db.signals :: other !in m.signalOrder[..k + 1] ==>
          !SameSignalKey(db.signals[other].signal, m.signals[id]))
    && (id in db.signals && id in db.processes ==> db.signals[id].signal.communityId == m.signals[id].communityId)
  }

  predicate CommunitiesFree(m: Manifest, db: Database, n: nat)
    requires n <= |m.communityOrder| && forall id <- m.communityOrder :: id in m.communities
  {
    n == 0 || (CommunitiesFree(m, db, n - 1) && CommunityFree(m, db, n - 1))
  }

  predicate SignalsFree(m: Manifest, db: Database, n: nat)
    requires n <= |m.signalOrder| && forall id <- m.signalOrder :: id in m.signals
  {
    n == 0 || (SignalsFree(m, db, n - 1) && SignalFree(m, db, n - 1))
  }

  /** None of the writes is in the way of another row or of a process. */
  predicate ClashFree(m: Manifest, db: Database)
    requires forall id <- m.communityOrder :: id in m.communities
    requires forall id <- m.signalOrder :: id in m.signals
  {
    CommunitiesFree(m, db, |m.communityOrder|) && SignalsFree(m, db, |m.signalOrder|)
  }

  function CommunitiesAfter(m: Manifest, db: Database, k: nat): map<Id, Community>
    requires k <= |m.communityOrder| && forall id <- m.communityOrder :: id in m.communities
  {
    db.communities + map id | id in m.communityOrder[..k] :: m.communities[id]
  }

  function Written(m: Manifest, db: Database, id: Id): SignalRow
    requires id in m.signals
  {
    SignalRow(m.signals[id], if id in db.signals then db.signals[id].extra else None)
  }

  function SignalsAfter(m: Manifest, db: Database, k: nat): map<Id, SignalRow>
    requires k <= |m.signalOrder| && forall id <- m.signalOrder :: id in m.signals
  {
    map id | id in db.signals.Keys + (set x | x in m.signalOrder[..k]) ::
      if id in m.signalOrder[..k] then Written(m, db, id) else db.signals[id]
  }

  function ProcessesAfter(m: Manifest, db: Database, k: nat): set<Id>
    requires k <= |m.signalOrder|
  {
    db.processes + set id | id in m.signalOrder[..k] && id !in db.signals
  }

  /** The database with the manifest written over it by id. */
  function Overwritten(m: Manifest, db: Database): Database
    requires forall id <- m.communityOrder :: id in m.communities
    requires forall id <- m.signalOrder :: id in m.signals
  {
    PutControlled(m, db.(
      communities := CommunitiesAfter(m, db, |m.communityOrder|),
      signals := SignalsAfter(m, db, |m.signalOrder|),
      processes := ProcessesAfter(m, db, |m.signalOrder|)))
  }

  lemma PrefixGrows(order: seq<Id>, k: nat)
    requires Distinct(order) && 0 < k <= |order|
    ensures order[k - 1] !in order[..k - 1]
    ensures forall x :: x in order[..k] <==> x in order[..k - 1] || x == order[k - 1]
  {
    assert order[..k] == order[..k - 1] + [order[k - 1]];
  }

  lemma CommunityBlockedStep(m: Manifest, db: Database, k: nat)
    requires Lists(m.communityOrder, m.communities.Keys) && UniqueCommunities(m) && 0 < k <= |m.communityOrder|
    ensures var id := m.communityOrder[k - 1];
      CommunityBlocked(CommunitiesAfter(m, db, k - 1), id, m.communities[id]) <==> !CommunityFree(m, db, k - 1)
  {
    var id := m.communityOrder[k - 1];
    var row, before := m.communities[id], CommunitiesAfter(m, db, k - 1);
    PrefixGrows(m.communityOrder, k);
    forall other | other in before && other != id && SameCommunityKey(before[other], row)
      ensures other in db.communities && other !in m.communityOrder[..k] && before[other] == db.communities[other]
    {
    }
    forall other | other in db.communities && other !in m.communityOrder[..k]
      ensures other in before && other != id && before[other] == db.communities[other]
    {
    }
  }

  lemma CommunitiesAfterStep(m: Manifest, db: Database, k: nat)
    requires Lists(m.communityOrder, m.communities.Keys) && 0 < k <= |m.communityOrder|
    ensures var id := m.communityOrder[k - 1];
      CommunitiesAfter(m, db, k) == CommunitiesAfter(m, db, k - 1)[id := m.communities[id]]
  {
    PrefixGrows(m.communityOrder, k);
  }

  lemma CommunityStep(m: Manifest, db: Database, k: nat)
    requires Lists(m.communityOrder, m.communities.Keys) && UniqueCommunities(m) && 0 < k <= |m.communityOrder|
    ensures var id := m.communityOrder[k - 1];
      PutCommunity(db.(communities := CommunitiesAfter(m, db, k - 1)), id, m.communities[id]) ==
        if CommunityFree(m, db, k - 1) then Some(db.(communities := CommunitiesAfter(m, db, k))) else None
  {
    hide UniqueCommunities, CommunityBlocked, CommunitiesAfter, CommunityFree;
    CommunityBlockedStep(m, db, k);
    CommunitiesAfterStep(m, db, k);
  }

  lemma {:induction false} PutCommunitiesExactly(m: Manifest, db: Database, k: nat)
    requires Lists(m.communityOrder, m.communities.Keys) && UniqueCommunities(m) && k <= |m.communityOrder|
    ensures PutCommunities(m, db, k) ==
      if CommunitiesFree(m, db, k) then Some(db.(communities := CommunitiesAfter(m, db, k))) else None
  {
    if k == 0 {
      assert CommunitiesAfter(m, db, 0) == db.communities;
    } else {
      hide UniqueCommunities, PutCommunity, CommunitiesAfter, CommunityFree;
      PutCommunitiesExactly(m, db, k - 1);
      CommunityStep(m, db, k);
    }
  }

  function SignalsWritten(m: Manifest, db: Database, k: nat): Database
    requires k <= |m.signalOrder| && forall id <- m.signalOrder :: id in m.signals
  {
    db.(signals := SignalsAfter(m, db, k), processes := ProcessesAfter(m, db, k))
  }

  lemma BlockedStep(m: Manifest, db: Database, k: nat)
    requires Lists(m.signalOrder, m.signals.Keys) && UniqueSignals(m) && 0 < k <= |m.signalOrder|
    ensures var id := m.signalOrder[k - 1];
      Blocked(SignalsAfter(m, db, k - 1), id, m.signals[id]) <==>
        exists other <- db.signals :: other !in m.signalOrder[..k]
          && SameSignalKey(db.signals[other].signal, m.signals[id])
  {
    var id := m.signalOrder[k - 1];
    var row, before := m.signals[id], SignalsAfter(m, db, k - 1);
    PrefixGrows(m.signalOrder, k);
    forall other | other in before && other != id && SameSignalKey(before[other].signal, row)
      ensures other in db.signals && other !in m.signalOrder[..k] && before[other] == db.signals[other]
    {
    }
    forall other | other in db.signals && other !in m.signalOrder[..k]
      ensures other in before && other != id && before[other] == db.signals[other]
    {
    }
  }

  lemma SignalsAfterStep(m: Manifest, db: Database, k: nat)
    requires Lists(m.signalOrder, m.signals.Keys) && 0 < k <= |m.signalOrder|
    ensures var id := m.signalOrder[k - 1];
      SignalsAfter(m, db, k) == SignalsAfter(m, db, k - 1)[id := Written(m, db, id)]
  {
    PrefixGrows(m.signalOrder, k);
    hide Written, Distinct;
  }

  lemma StillOriginal(m: Manifest, db: Database, k: nat)
    requires Lists(m.signalOrder, m.signals.Keys) && 0 < k <= |m.signalOrder|
    ensures var id, before := m.signalOrder[k - 1], SignalsAfter(m, db, k - 1);
      && (id in before <==> id in db.signals)
      && (id in db.signals ==> before[id] == db.signals[id])
  {
    PrefixGrows(m.signalOrder, k);
    hide Written, Distinct;
  }

  lemma ProcessesAfterStep(m: Manifest, db: Database, k: nat)
    requires Distinct(m.signalOrder) && 0 < k <= |m.signalOrder|
    ensures var id := m.signalOrder[k - 1];
      && ProcessesAfter(m, db, k)
           == (if id in db.signals then ProcessesAfter(m, db, k - 1) else ProcessesAfter(m, db, k - 1) + {id})
      && (id in ProcessesAfter(m, db, k - 1) <==> id in db.processes)
  {
    PrefixGrows(m.signalOrder, k);
    hide Distinct;
  }

  lemma SignalStep(m: Manifest, db: Database, k: nat)
    requires Lists(m.signalOrder, m.signals.Keys) && UniqueSignals(m) && 0 < k <= |m.signalOrder|
    requires m.signals[m.signalOrder[k - 1]].communityId in db.communities
    ensures var id := m.signalOrder[k - 1];
      PutSignal(SignalsWritten(m, db, k - 1), id, m.signals[id]) ==
        if SignalFree(m, db, k - 1) then Some(SignalsWritten(m, db, k)) else None
  {
    hide UniqueSignals, SameSignalKey, Blocked, SignalsAfter, ProcessesAfter;
    BlockedStep(m, db, k);
    SignalsAfterStep(m, db, k);
    StillOriginal(m, db, k);
    ProcessesAfterStep(m, db, k);
  }

  lemma NoSignalsWritten(m: Manifest, db: Database)
    requires forall id <- m.signalOrder :: id in m.signals
    ensures SignalsWritten(m, db, 0) == db
  {
    assert SignalsAfter(m, db, 0) == db.signals && ProcessesAfter(m, db, 0) == db.processes;
  }

  lemma {:induction false} PutSignalsExactly(m: Manifest, db: Database, k: nat)
    requires Lists(m.signalOrder, m.signals.Keys) && UniqueSignals(m) && k <= |m.signalOrder|
    requires forall id <- m.signals :: m.signals[id].communityId in db.communities
    ensures PutSignals(m, db, k) ==
      if SignalsFree(m, db, k) then Some(SignalsWritten(m, db, k)) else None
  {
    hide UniqueSignals, PutSignal, SignalsWritten, SignalFree, Distinct;
    if k == 0 {
      NoSignalsWritten(m, db);
    } else {
      PutSignalsExactly(m, db, k - 1);
      SignalStep(m, db, k);
    }
  }

  lemma AllCommunitiesWritten(m: Manifest, db: Database)
    requires Lists(m.communityOrder, m.communities.Keys)
    ensures CommunitiesAfter(m, db, |m.communityOrder|) == db.communities + m.communities
  {
    assert m.communityOrder[..|m.communityOrder|] == m.communityOrder;
  }

  lemma SignalsAfterSame(m: Manifest, d: Database, db: Database, n: nat)
    requires n <= |m.signalOrder| && forall id <- m.signalOrder :: id in m.signals
    requires d.signals == db.signals && d.processes == db.processes
    ensures SignalsAfter(m, d, n) == SignalsAfter(m, db, n) && ProcessesAfter(m, d, n) == ProcessesAfter(m, db, n)
  {
  }

  lemma {:induction false} SignalsFreeSame(m: Manifest, d: Database, db: Database, n: nat)
    requires n <= |m.signalOrder| && forall id <- m.signalOrder :: id in m.signals
    requires d.signals == db.signals && d.processes == db.processes
    ensures SignalsFree(m, d, n) <==> SignalsFree(m, db, n)
  {
    if n > 0 { SignalsFreeSame(m, d, db, n - 1); }
  }

  /** The row-by-row upsert either aborts or overwrites by id, and a check on the old rows says which. */
  lemma SeedExactly(m: Manifest, db: Database)
    requires WellFormed(m)
    ensures Seed(m, db) == if ClashFree(m, db) then Some(Overwritten(m, db)) else None
  {
    var n, d := |m.signalOrder|, db.(communities := CommunitiesAfter(m, db, |m.communityOrder|));
    PutCommunitiesExactly(m, db, |m.communityOrder|);
    AllCommunitiesWritten(m, db);
    assert forall id <- m.signals :: m.signals[id].communityId in d.communities;
    PutSignalsExactly(m, d, n);
    SignalsFreeSame(m, d, db, n);
    SignalsAfterSame(m, d, db, n);
    hide PutCommunities, PutSignals, CommunityFree, SignalFree, SignalsAfter, CommunitiesAfter;
    hide UniqueCommunities, UniqueSignals, SignalsPlaced, Lists;
  }

  // ---- What the overwritten database looks like ---------------------------

  lemma OverwrittenCommunities(m: Manifest, db: Database)
    requires WellFormed(m)
    ensures Overwritten(m, db).communities == db.communities + m.communities
    ensures Overwritten(m, db).confirmations == db.confirmations
  {
    AllCommunitiesWritten(m, db);
    hide CommunitiesAfter, SignalsAfter, ProcessesAfter, Distinct;
  }

  lemma OverwrittenSignals(m: Manifest, db: Database)
    requires Lists(m.communityOrder, m.communities.Keys) && Lists(m.signalOrder, m.signals.Keys)
    ensures var after := Overwritten(m, db);
      && after.signals.Keys == db.signals.Keys + m.signals.Keys
      && (forall id <- m.signals :: after.signals[id] == Written(m, db, id))
      && (forall id <- db.signals :: id !in m.signals ==> after.signals[id] == db.signals[id])
  {
    assert m.signalOrder[..|m.signalOrder|] == m.signalOrder;
    hide CommunitiesAfter, ProcessesAfter, Written, Distinct;
  }

  lemma OverwrittenRows(m: Manifest, db: Database)
    requires WellFormed(m)
    ensures var after := Overwritten(m, db);
      && after.communities == db.communities + m.communities
      && after.signals.Keys == db.signals.Keys + m.signals.Keys
      && (forall id <- m.signals :: after.signals[id] == Written(m, db, id))
      && (forall id <- db.signals :: id !in m.signals ==> after.signals[id] == db.signals[id])
      && after.confirmations == db.confirmations
  {
    hide Overwritten, Lists, UniqueCommunities, UniqueSignals, SignalsPlaced, Written;
    OverwrittenCommunities(m, db);
    OverwrittenSignals(m, db);
  }

  lemma OverwrittenActors(m: Manifest, db: Database)
    requires WellFormed(m)
    ensures var after := Overwritten(m, db);
      && ControlledMatches(m, after)
      && after.actors.Keys == db.actors.Keys + {m.controlledId}
      && (forall id <- db.actors :: id != m.controlledId ==> after.actors[id] == db.actors[id])
      && after.actors[m.controlledId].verifiedAt.None?
      && after.actors[m.controlledId].commitment
           == (if m.controlledId in db.actors then db.actors[m.controlledId].commitment else None)
  {
    hide CommunitiesAfter, SignalsAfter, ProcessesAfter, UniqueCommunities, UniqueSignals, SignalsPlaced, Distinct;
  }

  function ByControlled(m: Manifest, db: Database): set<Id> {
    set k | k in db.confirmations && db.confirmations[k].actorId == m.controlledId
  }

  lemma CommunitiesCounted(m: Manifest, db: Database)
    requires WellFormed(m)
    ensures CommunitiesOutside(m, Overwritten(m, db)) == CommunitiesOutside(m, db) + m.communities.Keys
  {
    OverwrittenRows(m, db);
    hide Overwritten, UniqueCommunities, UniqueSignals, SignalsPlaced, Lists;
  }

  lemma SignalsUnion(m: Manifest, db: Database, after: Database)
    requires after.signals.Keys == db.signals.Keys + m.signals.Keys
    requires forall id <- m.signals :: after.signals[id].signal.communityId != m.arena
    requires forall id <- db.signals :: id !in m.signals ==> after.signals[id] == db.signals[id]
    ensures SignalsOutside(m, after) == SignalsOutside(m, db) + m.signals.Keys
  {
    assert forall id <- after.signals :: id in db.signals || id in m.signals;
  }

  lemma SignalsCounted(m: Manifest, db: Database)
    requires WellFormed(m)
    ensures SignalsOutside(m, Overwritten(m, db)) == SignalsOutside(m, db) + m.signals.Keys
  {
    var after := Overwritten(m, db);
    assert forall id <- m.signals :: m.signals[id].communityId != m.arena;
    hide WellFormed, Overwritten, SignalsOutside;
    OverwrittenRows(m, db);
    SignalsUnion(m, db, after);
  }

  lemma ActorsCounted(m: Manifest, db: Database)
    requires WellFormed(m)
    ensures ActorsOutside(m, Overwritten(m, db)) == ActorsOutside(m, db) + {m.controlledId}
  {
    OverwrittenActors(m, db);
    hide Overwritten, UniqueCommunities, UniqueSignals, SignalsPlaced, Lists;
  }

  lemma ConfirmationsUnion(m: Manifest, db: Database, after: Database)
    requires after.confirmations == db.confirmations
    requires after.actors.Keys == db.actors.Keys + {m.controlledId}
    requires forall id <- db.actors :: id != m.controlledId ==> after.actors[id] == db.actors[id]
    requires after.actors[m.controlledId].communityId.Some?
    requires after.actors[m.controlledId].communityId != Some(m.arena)
    ensures CountedConfirmations(m, after) == CountedConfirmations(m, db) + ByControlled(m, db)
  {
    forall k | k in db.confirmations && db.confirmations[k].actorId != m.controlledId
      ensures k in CountedConfirmations(m, after) <==> k in CountedConfirmations(m, db)
    {
    }
  }

  lemma ConfirmationsCounted(m: Manifest, db: Database)
    requires WellFormed(m)
    ensures CountedConfirmations(m, Overwritten(m, db)) == CountedConfirmations(m, db) + ByControlled(m, db)
  {
    var after := Overwritten(m, db);
    assert m.controlledCommunity != m.arena;
    hide WellFormed, Overwritten, CountedConfirmations, ByControlled;
    OverwrittenActors(m, db);
    OverwrittenConfirmations(m, db);
    ConfirmationsUnion(m, db, after);
  }

  lemma OverwrittenConfirmations(m: Manifest, db: Database)
    requires WellFormed(m)
    ensures Overwritten(m, db).confirmations == db.confirmations
  {
    hide Distinct, UniqueCommunities, UniqueSignals, SignalsPlaced, CommunitiesAfter, SignalsAfter, ProcessesAfter;
  }

  /** A union is no larger than one part exactly when it adds nothing to it. */
  lemma UnionSize<T>(a: set<T>, b: set<T>)
    ensures |a + b| == |a| <==> b <= a
  {
    assert a + b == a + (b - a);
    assert |a + (b - a)| == |a| + |b - a|;
    if b <= a { assert b - a == {}; } else {
      var x :| x in b && x !in a;
      assert x in b - a;
    }
  }

  /** The condition under which the postcheck holds of the overwritten database. */
  predicate Fits(m: Manifest, db: Database) {
    && CommunitiesOutside(m, db) <= m.communities.Keys
    && SignalsOutside(m, db) <= m.signals.Keys
    && (m.controlledId in db.actors ==> m.controlledId in ActorsOutside(m, db))
    && ByControlled(m, db) <= CountedConfirmations(m, db)
  }

  lemma OrderedAfter(m: Manifest, db: Database, community: Id)
    requires WellFormed(m) && community in m.communities
    requires SignalsMatch(m, db) && SignalsOutside(m, db) == m.signals.Keys
    ensures Ordered(m, db, community)
  {
    assert community != m.arena;
    assert SignalsAt(db, community) == SignalsOf(m, community);
    hide UniqueCommunities, Lists;
    forall a, b | a in SignalsAt(db, community) && b in SignalsAt(db, community) && a != b
      ensures db.signals[a].signal.position != db.signals[b].signal.position
    {
      DifferentPositions(m, community, a, b);
    }
  }

  lemma DifferentPositions(m: Manifest, community: Id, a: Id, b: Id)
    requires UniqueSignals(m) && a in SignalsOf(m, community) && b in SignalsOf(m, community) && a != b
    ensures m.signals[a].position != m.signals[b].position
  {
    assert !SameSignalKey(m.signals[a], m.signals[b]);
  }

  lemma KeysSize<K, V>(rows: map<K, V>, others: set<K>)
    ensures |others + rows.Keys| == |rows| <==> others <= rows.Keys
  {
    UnionSize(rows.Keys, others);
    assert others + rows.Keys == rows.Keys + others && |rows| == |rows.Keys|;
  }

  lemma RowsSize(m: Manifest, db: Database)
    requires WellFormed(m)
    ensures var after := Overwritten(m, db);
      && (|CommunitiesOutside(m, after)| == |m.communities| <==> CommunitiesOutside(m, db) <= m.communities.Keys)
      && (|SignalsOutside(m, after)| == |m.signals| <==> SignalsOutside(m, db) <= m.signals.Keys)
  {
    hide Overwritten, WellFormed, CommunitiesOutside, SignalsOutside;
    var cs, ss := CommunitiesOutside(m, db), SignalsOutside(m, db);
    CommunitiesCounted(m, db);
    SignalsCounted(m, db);
    KeysSize(m.communities, cs);
    KeysSize(m.signals, ss);
  }

  lemma ActorsSize(m: Manifest, db: Database)
    requires WellFormed(m)
    ensures |ActorsOutside(m, Overwritten(m, db))|
              == |ActorsOutside(m, db)| + (if m.controlledId in db.actors then 0 else 1)
       <==> (m.controlledId in db.actors ==> m.controlledId in ActorsOutside(m, db))
  {
    var actors := ActorsOutside(m, db);
    assert m.controlledId in actors ==> m.controlledId in db.actors;
    hide Overwritten, WellFormed, ActorsOutside;
    ActorsCounted(m, db);
    UnionSize(actors, {m.controlledId});
    assert m.controlledId !in actors ==> |actors + {m.controlledId}| == |actors| + 1;
  }

  lemma ConfirmationsSize(m: Manifest, db: Database)
    requires WellFormed(m)
    ensures |CountedConfirmations(m, Overwritten(m, db))| == |CountedConfirmations(m, db)|
       <==> ByControlled(m, db) <= CountedConfirmations(m, db)
  {
    hide Overwritten, WellFormed, CountedConfirmations, ByControlled;
    ConfirmationsCounted(m, db);
    UnionSize(CountedConfirmations(m, db), ByControlled(m, db));
  }

  lemma CountsAfter(m: Manifest, db: Database)
    requires WellFormed(m)
    ensures var c, after := ReadCounts(m, db), ReadCounts(m, Overwritten(m, db));
      after == Counts(|m.communities|, |m.signals|, c.actors + (if c.controlled == 0 then 1 else 0), 1, c.confirmations)
      <==> Fits(m, db)
  {
    hide Overwritten, WellFormed, CommunitiesOutside, SignalsOutside, ActorsOutside, CountedConfirmations, ByControlled;
    RowsSize(m, db);
    ActorsSize(m, db);
    ConfirmationsSize(m, db);
    OverwrittenActors(m, db);
  }

  /** Exactly which databases the overwritten manifest brings into the canonical shape. */
  lemma PostcheckExactly(m: Manifest, db: Database)
    requires WellFormed(m)
    ensures PostInvariants(m, Overwritten(m, db), ReadCounts(m, db)) <==> Fits(m, db)
  {
    hide Overwritten, ReadCounts, Fits, WellFormed, Ordered, CommunitiesMatch, SignalsMatch, ControlledMatches;
    CanonicalAfter(m, db);
    CountsAfter(m, db);
    if Fits(m, db) {
      FitsOrdered(m, db);
    }
  }

  lemma FitsOrdered(m: Manifest, db: Database)
    requires WellFormed(m) && Fits(m, db)
    ensures forall community <- m.communities :: Ordered(m, Overwritten(m, db), community)
  {
    var after := Overwritten(m, db);
    assert SignalsOutside(m, db) <= m.signals.Keys;
    CanonicalAfter(m, db);
    SignalsCounted(m, db);
    hide *;
    assert SignalsOutside(m, db) + m.signals.Keys == m.signals.Keys;
    AllOrderedAfter(m, after);
  }

  lemma CanonicalAfter(m: Manifest, db: Database)
    requires WellFormed(m)
    ensures var after := Overwritten(m, db);
      CommunitiesMatch(m, after) && SignalsMatch(m, after) && ControlledMatches(m, after)
  {
    OverwrittenRows(m, db);
    OverwrittenActors(m, db);
    hide Overwritten, WellFormed;
  }

  lemma AllOrderedAfter(m: Manifest, db: Database)
    requires WellFormed(m) && SignalsMatch(m, db) && SignalsOutside(m, db) == m.signals.Keys
    ensures forall community <- m.communities :: Ordered(m, db, community)
  {
    hide WellFormed, SignalsMatch, SignalsOutside, Ordered;
    forall community | community in m.communities ensures Ordered(m, db, community) {
      OrderedAfter(m, db, community);
    }
  }

  // ---- The main results ---------------------------------------------------

  lemma SubsetOfSameSize<T>(a: set<T>, b: set<T>)
    requires a <= b && |a| == |b|
    ensures a == b
  {
    UnionSize(a, b);
    assert a + b == b;
  }

  /** What can still spoil a drifted baseline: rows of the manifest's own ids in the wrong place. */
  predicate DriftSound(m: Manifest, db: Database) {
    && (forall id <- m.signals :: id in db.signals ==> db.signals[id].signal.communityId != m.arena)
    && (m.controlledId in db.actors ==>
          var community := db.actors[m.controlledId].communityId;
          community != Some(m.arena) && (community.None? ==> ByControlled(m, db) == {}))
  }

  lemma DriftMeans(m: Manifest, db: Database)
    requires Assess(m, db) == ContentDrift
    ensures IdentityPresent(m, db)
    ensures ReadCounts(m, db) == Counts(|m.communities|, |m.signals|, 1, 1, 0)
  {
    hide ReadCounts, IdentityPresent, ExactSubset, CommunitiesMatch, SignalsMatch, ControlledMatches;
  }

  lemma DriftCommunities(m: Manifest, db: Database)
    requires m.arena !in m.communities && IdentityPresent(m, db) && |CommunitiesOutside(m, db)| == |m.communities|
    ensures CommunitiesOutside(m, db) == m.communities.Keys
  {
    assert m.communities.Keys <= CommunitiesOutside(m, db);
    assert |m.communities| == |m.communities.Keys|;
    SubsetOfSameSize(m.communities.Keys, CommunitiesOutside(m, db));
  }

  lemma DriftSignals(m: Manifest, db: Database)
    requires IdentityPresent(m, db) && |SignalsOutside(m, db)| == |m.signals|
    ensures SignalsOutside(m, db) <= m.signals.Keys
       <==> forall id <- m.signals :: db.signals[id].signal.communityId != m.arena
  {
    var ss := SignalsOutside(m, db);
    assert |m.signals| == |m.signals.Keys|;
    if ss <= m.signals.Keys {
      SubsetOfSameSize(ss, m.signals.Keys);
      assert forall id <- m.signals :: id in ss;
    }
    if forall id <- m.signals :: db.signals[id].signal.communityId != m.arena {
      assert m.signals.Keys <= ss;
      SubsetOfSameSize(m.signals.Keys, ss);
    }
  }

  lemma DriftFits(m: Manifest, db: Database)
    requires WellFormed(m) && Assess(m, db) == ContentDrift
    ensures Fits(m, db) <==> DriftSound(m, db)
  {
    assert m.arena !in m.communities;
    hide WellFormed, Assess, CommunitiesOutside, SignalsOutside;
    DriftMeans(m, db);
    DriftCommunities(m, db);
    DriftSignals(m, db);
    hide ReadCounts;
  }

  lemma EmptyFits(m: Manifest, db: Database)
    requires Consistent(db) && Assess(m, db) == Empty
    ensures Fits(m, db)
  {
    assert CommunitiesOutside(m, db) == {} && SignalsOutside(m, db) == {};
    hide ExactSubset;
  }

  lemma SubsetFits(m: Manifest, db: Database)
    requires WellFormed(m) && Consistent(db) && ExactSubset(m, db)
    ensures Fits(m, db)
  {
    hide UniqueCommunities, UniqueSignals, SignalsPlaced, Lists;
  }

  lemma CanonicalIsOrdered(m: Manifest, db: Database)
    requires WellFormed(m) && SignalsMatch(m, db) && |SignalsOutside(m, db)| == |m.signals|
    ensures forall community <- m.communities :: Ordered(m, db, community)
  {
    assert m.signals.Keys <= SignalsOutside(m, db);
    hide WellFormed, SignalsMatch, SignalsOutside, Ordered;
    assert |m.signals| == |m.signals.Keys|;
    SubsetOfSameSize(m.signals.Keys, SignalsOutside(m, db));
    AllOrderedAfter(m, db);
  }

  lemma ExactPasses(m: Manifest, db: Database)
    requires WellFormed(m) && Assess(m, db) == Exact
    ensures PostInvariants(m, db, ReadCounts(m, db)) && ReadCounts(m, db).actors == 1
    ensures ReadCounts(m, db).confirmations == 0
  {
    hide WellFormed, ExactSubset, Ordered, IdentityPresent, CommunitiesMatch, SignalsMatch, ControlledMatches;
    hide CommunitiesOutside, SignalsOutside, ActorsOutside, CountedConfirmations;
    CanonicalIsOrdered(m, db);
  }

  /**
   * A run succeeds exactly when the preflight accepts, the writes are in nobody's way, and a drifted
   * baseline has its own ids in their places.
   */
  lemma RunSucceedsExactly(m: Manifest, db: Database)
    requires WellFormed(m) && Consistent(db)
    ensures Run(m, db).1.Ok? <==>
      match Assess(m, db)
      case Refuse(_) => false
      case Exact => true
      case ContentDrift => ClashFree(m, db) && DriftSound(m, db)
      case _ => ClashFree(m, db)
  {
    hide WellFormed, Consistent, Seed, Overwritten, PostInvariants, ClashFree, DriftSound, Fits, Assess, ReadCounts;
    SeedExactly(m, db);
    PostcheckExactly(m, db);
    AssessedFits(m, db);
  }

  lemma AssessedFits(m: Manifest, db: Database)
    requires WellFormed(m) && Consistent(db)
    ensures match Assess(m, db)
            case Refuse(_) => true
            case Exact => PostInvariants(m, db, ReadCounts(m, db))
            case ContentDrift => Fits(m, db) <==> DriftSound(m, db)
            case _ => Fits(m, db)
  {
    var baseline := Assess(m, db);
    if baseline == CanonicalSubset { assert ExactSubset(m, db); }
    hide WellFormed, Consistent, Assess, ExactSubset, PostInvariants, Fits, DriftSound;
    match baseline
    case Exact => ExactPasses(m, db);
    case ContentDrift => DriftFits(m, db);
    case Empty => EmptyFits(m, db);
    case CanonicalSubset => SubsetFits(m, db);
    case Refuse(_) =>
  }

  /** With arena rows free of canonical ids and the actor placed, every accepted baseline is brought into shape. */
  lemma AcceptedBaselineSucceeds(m: Manifest, db: Database)
    requires WellFormed(m) && Consistent(db) && !Assess(m, db).Refuse? && ClashFree(m, db)
    requires forall id <- m.signals :: id in db.signals ==> db.signals[id].signal.communityId != m.arena
    requires m.controlledId in db.actors ==>
               db.actors[m.controlledId].communityId.Some? && db.actors[m.controlledId].communityId != Some(m.arena)
    ensures Run(m, db).1.Ok?
  {
    RunSucceedsExactly(m, db);
    hide WellFormed, Consistent, Run, Assess, ClashFree;
  }

  /** Everything that is not the manifest's own: confirmations, other actors and rows, unmanaged columns. */
  ghost predicate SameElsewhere(m: Manifest, db: Database, after: Database) {
    && after.confirmations == db.confirmations
    && (forall id <- db.actors :: id != m.controlledId ==> id in after.actors && after.actors[id] == db.actors[id])
    && (forall id <- db.communities :: id !in m.communities ==>
          id in after.communities && after.communities[id] == db.communities[id])
    && (forall id <- db.signals :: id !in m.signals ==> id in after.signals && after.signals[id] == db.signals[id])
    && (forall id <- db.signals :: id in after.signals && after.signals[id].extra == db.signals[id].extra)
  }

  lemma OverwrittenFrame(m: Manifest, db: Database)
    requires WellFormed(m)
    ensures SameElsewhere(m, db, Overwritten(m, db))
  {
    hide WellFormed, Overwritten;
    OverwrittenRows(m, db);
    OverwrittenActors(m, db);
  }

  lemma SameElsewhereReflexive(m: Manifest, db: Database)
    ensures SameElsewhere(m, db, db)
  {
  }

  /** Whatever the outcome, a run touches nothing but the manifest's own rows, and a failed one nothing at all. */
  lemma RunFrame(m: Manifest, db: Database)
    requires WellFormed(m)
    ensures SameElsewhere(m, db, Run(m, db).0)
    ensures Run(m, db).1.Err? ==> Run(m, db).0 == db
  {
    hide WellFormed, Seed, Overwritten, PostInvariants, ClashFree, Assess, SameElsewhere, ReadCounts;
    SameElsewhereReflexive(m, db);
    SeedExactly(m, db);
    OverwrittenFrame(m, db);
  }

  /**
   * After any success a second run changes nothing, and its verdict depends on two counts alone: already
   * canonical exactly when there is one actor outside the arena and no counted confirmation.
   */
  lemma SecondRunExactly(m: Manifest, db: Database)
    requires WellFormed(m) && Run(m, db).1.Ok?
    ensures var after := Run(m, db).0;
      var c := ReadCounts(m, after);
      && Run(m, after) ==
           (after, if c.confirmations > 0 then Err(PreflightRefused(ConfirmationsPresent))
                   else if c.actors > 1 then Err(PreflightRefused(UnexpectedRows))
                   else Ok(AlreadyCanonical))
      && c.actors >= 1
  {
    var after := Run(m, db).0;
    hide WellFormed, Assess, PostInvariants, ReadCounts, Seed, Canonical, Run;
    RunIsCanonical(m, db);
    CanonicalAssessed(m, after);
    if Assess(m, after) == Exact { ExactPasses(m, after); }
    RunWithoutWrites(m, after);
  }

  lemma RunWithoutWrites(m: Manifest, db: Database)
    requires WellFormed(m)
    ensures Assess(m, db) == Exact && PostInvariants(m, db, ReadCounts(m, db)) ==>
      Run(m, db) == (db, Ok(AlreadyCanonical))
    ensures Assess(m, db).Refuse? ==> Run(m, db) == (db, Err(PreflightRefused(Assess(m, db).code)))
  {
    hide Assess, PostInvariants, ReadCounts, Seed, UniqueCommunities, UniqueSignals, SignalsPlaced;
  }

  /** Every success leaves the canonical rows in place. */
  predicate Canonical(m: Manifest, db: Database) {
    && CommunitiesMatch(m, db) && SignalsMatch(m, db) && ControlledMatches(m, db)
    && |CommunitiesOutside(m, db)| == |m.communities| && |SignalsOutside(m, db)| == |m.signals|
  }

  lemma RunIsCanonical(m: Manifest, db: Database)
    requires WellFormed(m) && Run(m, db).1.Ok?
    ensures Canonical(m, Run(m, db).0)
  {
    hide WellFormed, Assess, Seed, Ordered;
  }

  lemma CanonicalAssessed(m: Manifest, db: Database)
    requires WellFormed(m) && Canonical(m, db)
    ensures var c := ReadCounts(m, db);
      && c.actors >= 1
      && Assess(m, db) == if c.confirmations > 0 then Refuse(ConfirmationsPresent)
                          else if c.actors > 1 then Refuse(UnexpectedRows)
                          else Exact
  {
    assert m.controlledId in ActorsOutside(m, db);
    assert ActorsOutside(m, db) != {};
    assert |m.communities| == |m.communities.Keys| > 0;
    hide WellFormed, CommunitiesMatch, SignalsMatch, CommunitiesOutside, SignalsOutside, ActorsOutside;
    hide CountedConfirmations, IdentityPresent;
  }

  // ---- Accepted baselines that fail ---------------------------------------

  const FIRST := Community("first", 1, "es", "")
  const SECOND := Community("second", 2, "es", "")
  const PAIR := Manifest("arena", ["c1", "c2"], map["c1" := FIRST, "c2" := SECOND], [], map[], "x", "test", "c1")

  lemma PairWellFormed()
    ensures WellFormed(PAIR)
  {
    assert PAIR.communityOrder[0] == "c1" && PAIR.communityOrder[1] == "c2";
    assert "c1" in PAIR.communityOrder && "c2" in PAIR.communityOrder;
  }

  const SWAPPED := Database(
    map["c1" := FIRST.(position := 2), "c2" := SECOND.(position := 1)], map[],
    map["x" := Actor("test", Some("c1"), None, None, None)], map[], {})

  lemma PairDrifts(db: Database)
    requires ReadCounts(PAIR, db) == Counts(2, 0, 1, 1, 0) && IdentityPresent(PAIR, db)
    requires !CommunitiesMatch(PAIR, db) || !ControlledMatches(PAIR, db)
    ensures Assess(PAIR, db) == ContentDrift
  {
    assert |PAIR.communities.Keys| == |{"c1", "c2"}|;
    hide ReadCounts, ExactSubset;
  }

  lemma SwappedCounts()
    ensures ReadCounts(PAIR, SWAPPED) == Counts(2, 0, 1, 1, 0)
  {
    assert CommunitiesOutside(PAIR, SWAPPED) == {"c1", "c2"} && SignalsOutside(PAIR, SWAPPED) == {};
    assert ActorsOutside(PAIR, SWAPPED) == {"x"} && CountedConfirmations(PAIR, SWAPPED) == {};
    hide CommunitiesOutside, SignalsOutside, ActorsOutside, CountedConfirmations;
  }

  lemma SwappedAssessed()
    ensures Consistent(SWAPPED) && Assess(PAIR, SWAPPED) == ContentDrift
  {
    SwappedCounts();
    assert SWAPPED.communities["c1"] != PAIR.communities["c1"];
    hide ReadCounts, Assess;
    PairDrifts(SWAPPED);
  }

  lemma SwappedBlocked()
    ensures PutCommunities(PAIR, SWAPPED, 2) == None
  {
    PairWellFormed();
    assert SameCommunityKey(SWAPPED.communities["c2"], FIRST);
    assert CommunityBlocked(SWAPPED.communities, "c1", FIRST);
    assert PutCommunities(PAIR, SWAPPED, 0) == Some(SWAPPED);
    assert PutCommunities(PAIR, SWAPPED, 1) == None;
  }

  /** Two canonical communities that swapped their positions: accepted as drift, and the first write aborts. */
  lemma SwappedPositionsAbort()
    ensures WellFormed(PAIR) && Consistent(SWAPPED) && Assess(PAIR, SWAPPED) == ContentDrift
    ensures Run(PAIR, SWAPPED) == (SWAPPED, Err(WriteAborted))
  {
    PairWellFormed();
    SwappedAssessed();
    SwappedBlocked();
    hide WellFormed, Consistent, Assess, PutCommunities, PostInvariants;
  }

  const STRAYED := Database(
    map["c1" := FIRST, "c2" := SECOND, "arena" := Community("load-arena", 3, "es", "")], map[],
    map["x" := Actor("test", Some("arena"), None, None, None), "y" := Actor("member", Some("c1"), None, None, None)],
    map[], {})

  lemma StrayedCounts()
    ensures ReadCounts(PAIR, STRAYED) == Counts(2, 0, 1, 1, 0)
  {
    assert CommunitiesOutside(PAIR, STRAYED) == {"c1", "c2"} && SignalsOutside(PAIR, STRAYED) == {};
    assert ActorsOutside(PAIR, STRAYED) == {"y"} && CountedConfirmations(PAIR, STRAYED) == {};
    hide CommunitiesOutside, SignalsOutside, ActorsOutside, CountedConfirmations;
  }

  lemma StrayedConsistent()
    ensures Consistent(STRAYED)
  {
    var arena := STRAYED.communities["arena"];
    assert !SameCommunityKey(FIRST, SECOND) && !SameCommunityKey(FIRST, arena) && !SameCommunityKey(SECOND, arena);
    assert !SameCommunityKey(SECOND, FIRST) && !SameCommunityKey(arena, FIRST) && !SameCommunityKey(arena, SECOND);
    hide SameCommunityKey;
    forall a, b | a in STRAYED.communities && b in STRAYED.communities && a != b
      ensures !SameCommunityKey(STRAYED.communities[a], STRAYED.communities[b])
    {
      assert a in {"c1", "c2", "arena"} && b in {"c1", "c2", "arena"};
    }
  }

  lemma StrayedAssessed()
    ensures Consistent(STRAYED) && Assess(PAIR, STRAYED) == ContentDrift && !DriftSound(PAIR, STRAYED)
  {
    StrayedCounts();
    StrayedConsistent();
    hide ReadCounts, Assess, Consistent;
    PairDrifts(STRAYED);
  }

  /**
   * The controlled actor drifted into the arena while another actor is outside it: accepted as drift, written
   * in full, and refused by the postcheck, which then counts one actor more.
   */
  lemma ArenaActorFailsPostcheck()
    ensures WellFormed(PAIR) && Consistent(STRAYED) && Assess(PAIR, STRAYED) == ContentDrift && ClashFree(PAIR, STRAYED)
    ensures Run(PAIR, STRAYED) == (STRAYED, Err(PostcheckFailed))
  {
    PairWellFormed();
    StrayedAssessed();
    PairIsFree(STRAYED);
    DriftFits(PAIR, STRAYED);
    PostcheckExactly(PAIR, STRAYED);
    SeedExactly(PAIR, STRAYED);
    hide WellFormed, Consistent, Assess, PostInvariants, Overwritten, Fits, ClashFree, DriftSound, Seed;
  }

  lemma PairIsFree(db: Database)
    requires db.communities == map["c1" := FIRST, "c2" := SECOND, "arena" := Community("load-arena", 3, "es", "")]
    ensures ClashFree(PAIR, db)
  {
    PairWellFormed();
    assert PAIR.communityOrder[0] == "c1" && PAIR.communityOrder[1] == "c2";
    assert SignalsFree(PAIR, db, 0);
    assert CommunitiesFree(PAIR, db, 0);
    assert CommunityFree(PAIR, db, 0);
    assert CommunityFree(PAIR, db, 1);
    assert CommunitiesFree(PAIR, db, 1);
    assert CommunitiesFree(PAIR, db, 2);
  }

  // ---- The runner ---------------------------------------------------------

  /** One seeding process: the database it writes, and the advisory lock it shares with other seeders. */
  class SeedRunner {
    const m: Manifest
    var db: Database
    var lockedByOther: bool
    var locked: bool

    constructor (m: Manifest, db: Database, lockedByOther: bool)
      ensures this.m == m && this.db == db && this.lockedByOther == lockedByOther && !locked
    {
      this.m, this.db, this.lockedByOther, this.locked := m, db, lockedByOther, false;
    }

    method UpsertCommunities(start: Database) returns (r: Option<Database>)
      requires forall id <- m.communityOrder :: id in m.communities
      ensures r == PutCommunities(m, start, |m.communityOrder|)
    {
      hide PutCommunity;
      var tx := start;
      for k := 0 to |m.communityOrder|
        invariant PutCommunities(m, start, k) == Some(tx)
      {
        var put := PutCommunity(tx, m.communityOrder[k], m.communities[m.communityOrder[k]]);
        if put.None? {
          PutCommunitiesFails(m, start, k + 1, |m.communityOrder|);
          return None;
        }
        tx := put.value;
      }
      return Some(tx);
    }

    method UpsertSignals(start: Database) returns (r: Option<Database>)
      requires forall id <- m.signalOrder :: id in m.signals
      ensures r == PutSignals(m, start, |m.signalOrder|)
    {
      hide PutSignal;
      var tx := start;
      for k := 0 to |m.signalOrder|
        invariant PutSignals(m, start, k) == Some(tx)
      {
        var put := PutSignal(tx, m.signalOrder[k], m.signals[m.signalOrder[k]]);
        if put.None? {
          PutSignalsFails(m, start, k + 1, |m.signalOrder|);
          return None;
        }
        tx := put.value;
      }
      return Some(tx);
    }

    /** The lock is released on every path; the database changes only when the run succeeds. */
    method RunStagingSeed(injectFailure: bool) returns (r: Result<Outcome, Error>)
      requires WellFormed(m) && !locked
      modifies this
      ensures !locked && lockedByOther == old(lockedByOther)
      ensures old(lockedByOther) ==> r == Err(LockHeld) && db == old(db)
      ensures !old(lockedByOther) && !injectFailure ==> (db, r) == Run(m, old(db))
      ensures !old(lockedByOther) && injectFailure ==>
        && db == old(db)
        && r == if Assess(m, db).Refuse? || Assess(m, db) == Exact then Run(m, db).1
                else if Seed(m, db).None? then Err(WriteAborted) else Err(InjectedFailure)
    {
      locked := !lockedByOther;
      if !locked {
        return Err(LockHeld);
      }
      var baseline := Assess(m, db);
      if baseline.Refuse? {
        r := Err(PreflightRefused(baseline.code));
      } else if baseline == Exact {
        r := if PostInvariants(m, db, ReadCounts(m, db)) then Ok(AlreadyCanonical) else Err(PostcheckFailed);
      } else {
        r := Mutate(baseline, injectFailure);
      }
      locked := false;
    }

    /** One transaction: write, check, and commit or roll back. */
    method Mutate(baseline: Baseline, injectFailure: bool) returns (r: Result<Outcome, Error>)
      requires WellFormed(m) && baseline == Assess(m, db) && !baseline.Refuse? && baseline != Exact
      modifies this`db
      ensures !injectFailure ==> (db, r) == Run(m, old(db))
      ensures injectFailure ==>
        db == old(db) && r == if Seed(m, db).None? then Err(WriteAborted) else Err(InjectedFailure)
    {
      hide Assess, PostInvariants, PutCommunities, PutSignals, PutControlled;
      var communities := UpsertCommunities(db);
      if communities.None? {
        return Err(WriteAborted);
      }
      var seeded := UpsertSignals(communities.value);
      if seeded.None? {
        return Err(WriteAborted);
      }
      if injectFailure {
        return Err(InjectedFailure);
      }
      var after := PutControlled(m, seeded.value);
      if !PostInvariants(m, after, ReadCounts(m, db)) {
        return Err(PostcheckFailed);
      }
      db := after;
      return Ok(OutcomeOf(baseline));
    }
  }

  lemma {:induction false} PutCommunitiesFails(m: Manifest, db: Database, k: nat, n: nat)
    requires k <= n <= |m.communityOrder| && (forall id <- m.communityOrder :: id in m.communities)
    requires PutCommunities(m, db, k) == None
    ensures PutCommunities(m, db, n) == None
  {
    if k < n { PutCommunitiesFails(m, db, k, n - 1); }
  }

  lemma {:induction false} PutSignalsFails(m: Manifest, db: Database, k: nat, n: nat)
    requires k <= n <= |m.signalOrder| && (forall id <- m.signalOrder :: id in m.signals)
    requires PutSignals(m, db, k) == None
    ensures PutSignals(m, db, n) == None
  {
    if k < n { PutSignalsFails(m, db, k, n - 1); }
  }
}
