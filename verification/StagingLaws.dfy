/**
 * The staging seed in terms of rows alone: which databases the preflight takes for what, when the writes go through,
 * and what every success leaves behind.
 */
module StagingLaws {
  import opened Prelude
  import opened StagingSeed

  // ---- Counting to none and to one ----------------------------------------

  lemma NoneExactly<T>(s: set<T>)
    ensures |s| == 0 <==> forall x :: x !in s
  {
    if forall x :: x !in s { assert s == {}; }
  }

  lemma OneExactly<T>(s: set<T>, x: T)
    requires x in s
    ensures |s| == 1 <==> forall y <- s :: y == x
  {
    assert |s - {x}| == |s| - 1;
    NoneExactly(s - {x});
    forall y | y in s && y != x ensures y in s - {x} {}
  }

  // ---- What the preflight sees --------------------------------------------

  predicate Linked(m: Manifest, db: Database) {
    m.controlledId in db.actors && db.actors[m.controlledId].accountId.Some?
  }

  lemma AssessTable(m: Manifest, db: Database)
    ensures var c, full := ReadCounts(m, db), Counts(|m.communities|, |m.signals|, 1, 1, 0);
      var matches := CommunitiesMatch(m, db) && SignalsMatch(m, db) && ControlledMatches(m, db);
      var plain := !Linked(m, db) && c != Counts(0, 0, 0, 0, 0) && c != full;
      && (Assess(m, db) == Empty <==> !Linked(m, db) && c == Counts(0, 0, 0, 0, 0))
      && (Assess(m, db) == Exact <==> !Linked(m, db) && c == full && matches)
      && (Assess(m, db) == ContentDrift <==> !Linked(m, db) && c == full && !matches && IdentityPresent(m, db))
      && (Assess(m, db) == Refuse(ConflictingCanonical) <==>
            !Linked(m, db) && c == full && !matches && !IdentityPresent(m, db))
      && (Assess(m, db) == CanonicalSubset <==>
            plain && c.communities <= |m.communities| && c.signals <= |m.signals| && ExactSubset(m, db))
  {
    hide ReadCounts, ExactSubset, CommunitiesMatch, SignalsMatch, ControlledMatches, IdentityPresent;
  }

  /** Empty: the arena's rows at most, and nobody outside it. */
  lemma EmptyExactly(m: Manifest, db: Database)
    ensures Assess(m, db) == Empty <==>
      && (forall id <- db.communities :: id == m.arena)
      && (forall id <- db.signals :: db.signals[id].signal.communityId == m.arena)
      && (forall id <- db.actors :: db.actors[id].communityId == Some(m.arena))
      && m.controlledId !in db.actors
  {
    AssessTable(m, db);
    NoRows(m, db);
    NoActors(m, db);
    hide Assess, CommunitiesOutside, SignalsOutside, ActorsOutside, CountedConfirmations;
    hide ExactSubset, CommunitiesMatch, SignalsMatch, ControlledMatches, IdentityPresent;
  }

  lemma NoRows(m: Manifest, db: Database)
    ensures |CommunitiesOutside(m, db)| == 0 <==> forall id <- db.communities :: id == m.arena
    ensures |SignalsOutside(m, db)| == 0 <==> forall id <- db.signals :: db.signals[id].signal.communityId == m.arena
  {
    NoneExactly(CommunitiesOutside(m, db));
    NoneExactly(SignalsOutside(m, db));
    forall id | id in db.signals && db.signals[id].signal.communityId != m.arena ensures id in SignalsOutside(m, db) {}
    forall id | id in db.communities && id != m.arena ensures id in CommunitiesOutside(m, db) {}
  }

  /** Where nobody is outside the arena, no confirmation counts. */
  lemma NoActors(m: Manifest, db: Database)
    ensures |ActorsOutside(m, db)| == 0 <==> forall id <- db.actors :: db.actors[id].communityId == Some(m.arena)
    ensures |ActorsOutside(m, db)| == 0 ==> |CountedConfirmations(m, db)| == 0
  {
    NoneExactly(ActorsOutside(m, db));
    NoneExactly(CountedConfirmations(m, db));
    forall id | id in db.actors && db.actors[id].communityId != Some(m.arena) ensures id in ActorsOutside(m, db) {}
    forall k | k in CountedConfirmations(m, db) ensures db.confirmations[k].actorId in ActorsOutside(m, db) {}
  }

  /** Every row of the manifest stands in the database, the controlled actor placed and unlinked. */
  predicate Holds(m: Manifest, db: Database) {
    && (forall id <- m.communities :: id in db.communities && db.communities[id] == m.communities[id])
    && (forall id <- m.signals :: id in db.signals && db.signals[id].signal == m.signals[id])
    && m.controlledId in db.actors && Placed(m, db.actors[m.controlledId])
  }

  predicate Placed(m: Manifest, a: Actor) {
    a.profile == m.controlledProfile && a.communityId == Some(m.controlledCommunity) && a.accountId.None?
  }

  /** No other community than the arena, and no other signal than the arena's. */
  predicate NothingElse(m: Manifest, db: Database) {
    && (forall id <- db.communities :: id in m.communities || id == m.arena)
    && (forall id <- db.signals :: id in m.signals || db.signals[id].signal.communityId == m.arena)
  }

  lemma HoldsIs(m: Manifest, db: Database)
    ensures Holds(m, db) <==> CommunitiesMatch(m, db) && SignalsMatch(m, db) && ControlledMatches(m, db)
  {
  }

  lemma AsManyAs<K, V>(rows: map<K, V>, s: set<K>)
    ensures rows.Keys <= s ==> (|s| == |rows| <==> s <= rows.Keys)
    ensures s <= rows.Keys ==> |s| <= |rows| && (|s| == |rows| <==> rows.Keys <= s)
  {
    assert |rows| == |rows.Keys|;
    if rows.Keys <= s && |s| == |rows| { SubsetOfSameSize(rows.Keys, s); }
    if s <= rows.Keys {
      assert s + (rows.Keys - s) == rows.Keys;
      assert |s| + |rows.Keys - s| == |rows.Keys|;
      NoneExactly(rows.Keys - s);
      assert rows.Keys <= s ==> s == rows.Keys;
      if |s| == |rows| {
        forall x | x in rows.Keys ensures x in s { assert x !in rows.Keys - s; }
      }
    }
  }

  lemma FullRows(m: Manifest, db: Database)
    requires WellFormed(m) && Holds(m, db)
    ensures |CommunitiesOutside(m, db)| == |m.communities| && |SignalsOutside(m, db)| == |m.signals|
       <==> NothingElse(m, db)
  {
    var cs, ss := CommunitiesOutside(m, db), SignalsOutside(m, db);
    assert m.communities.Keys <= cs && m.signals.Keys <= ss;
    AsManyAs(m.communities, cs);
    AsManyAs(m.signals, ss);
    assert cs <= m.communities.Keys <==> forall id <- db.communities :: id in m.communities || id == m.arena;
    forall id | id in db.signals && db.signals[id].signal.communityId != m.arena ensures id in ss {}
    hide WellFormed, Holds;
  }

  lemma OneActor(m: Manifest, db: Database)
    requires WellFormed(m) && Holds(m, db)
    ensures var alone := forall id <- db.actors :: id == m.controlledId || db.actors[id].communityId == Some(m.arena);
      && (|ActorsOutside(m, db)| == 1 <==> alone)
      && (alone ==> (|CountedConfirmations(m, db)| == 0 <==>
                       forall k <- db.confirmations :: db.confirmations[k].actorId != m.controlledId))
  {
    var actors, ks := ActorsOutside(m, db), CountedConfirmations(m, db);
    assert m.controlledCommunity != m.arena;
    assert m.controlledId in actors;
    hide WellFormed;
    OneExactly(actors, m.controlledId);
    forall id | id in db.actors && db.actors[id].communityId != Some(m.arena) ensures id in actors {}
    NoneExactly(ks);
    forall k | k in db.confirmations && db.confirmations[k].actorId == m.controlledId ensures k in ks {}
    forall k | k in ks ensures db.confirmations[k].actorId in actors {}
  }

  /** Exact: the manifest's rows and no others, nobody else outside the arena, and no vote by the controlled actor. */
  lemma ExactExactly(m: Manifest, db: Database)
    requires WellFormed(m)
    ensures Assess(m, db) == Exact <==>
      && Holds(m, db) && NothingElse(m, db)
      && (forall id <- db.actors :: id == m.controlledId || db.actors[id].communityId == Some(m.arena))
      && (forall k <- db.confirmations :: db.confirmations[k].actorId != m.controlledId)
  {
    AssessTable(m, db);
    HoldsIs(m, db);
    if Holds(m, db) {
      assert !Linked(m, db) && m.controlledId in db.actors;
      FullRows(m, db);
      OneActor(m, db);
    }
    hide WellFormed, Assess, ExactSubset, CommunitiesMatch, SignalsMatch, ControlledMatches, IdentityPresent;
    hide CommunitiesOutside, SignalsOutside, ActorsOutside, CountedConfirmations, NothingElse;
  }

  /** Content drift: the manifest's ids and as many rows as it lists, but not all of them as it lists them. */
  lemma DriftExactly(m: Manifest, db: Database)
    requires WellFormed(m)
    ensures Assess(m, db) == ContentDrift <==>
      && !Holds(m, db) && !Linked(m, db) && m.controlledId in db.actors
      && (forall id <- m.communities :: id in db.communities) && (forall id <- m.signals :: id in db.signals)
      && (forall id <- db.communities :: id in m.communities || id == m.arena)
      && |set id | id in db.signals && db.signals[id].signal.communityId != m.arena| == |m.signals|
      && |set id | id in db.actors && db.actors[id].communityId != Some(m.arena)| == 1
      && (forall k <- db.confirmations :: db.confirmations[k].actorId in db.actors ==>
            db.actors[db.confirmations[k].actorId].communityId.None?
            || db.actors[db.confirmations[k].actorId].communityId == Some(m.arena))
  {
    AssessTable(m, db);
    HoldsIs(m, db);
    assert (set id | id in db.signals && db.signals[id].signal.communityId != m.arena) == SignalsOutside(m, db);
    assert (set id | id in db.actors && db.actors[id].communityId != Some(m.arena)) == ActorsOutside(m, db);
    if forall id <- m.communities :: id in db.communities {
      FullCommunities(m, db);
    }
    NoVotes(m, db);
    hide WellFormed, Assess, ExactSubset, CommunitiesMatch, SignalsMatch, ControlledMatches;
    hide CommunitiesOutside, SignalsOutside, ActorsOutside, CountedConfirmations, Holds;
  }

  lemma FullCommunities(m: Manifest, db: Database)
    requires WellFormed(m) && forall id <- m.communities :: id in db.communities
    ensures |CommunitiesOutside(m, db)| == |m.communities|
       <==> forall id <- db.communities :: id in m.communities || id == m.arena
  {
    var cs := CommunitiesOutside(m, db);
    assert m.communities.Keys <= cs;
    AsManyAs(m.communities, cs);
    forall id | id in db.communities && id != m.arena ensures id in cs {}
    hide WellFormed;
  }

  lemma NoVotes(m: Manifest, db: Database)
    ensures |CountedConfirmations(m, db)| == 0 <==>
      forall k <- db.confirmations :: db.confirmations[k].actorId in db.actors ==>
        db.actors[db.confirmations[k].actorId].communityId.None?
        || db.actors[db.confirmations[k].actorId].communityId == Some(m.arena)
  {
    var ks := CountedConfirmations(m, db);
    NoneExactly(ks);
    forall k | k in db.confirmations && db.confirmations[k].actorId in db.actors
      ensures k !in ks <==> db.actors[db.confirmations[k].actorId].communityId.None?
                            || db.actors[db.confirmations[k].actorId].communityId == Some(m.arena)
    {
    }
  }

  /** Outside the arena only rows of the manifest, as listed. */
  predicate AsListed(m: Manifest, db: Database) {
    && (forall id <- db.communities ::
          id == m.arena || (id in m.communities && db.communities[id] == m.communities[id]))
    && (forall id <- db.signals :: db.signals[id].signal.communityId == m.arena
          || (id in m.signals && db.signals[id].signal == m.signals[id]))
  }

  /** Canonical subset: some of the manifest's rows, as listed and none besides, with others still missing. */
  lemma SubsetExactly(m: Manifest, db: Database)
    requires WellFormed(m)
    ensures Assess(m, db) == CanonicalSubset <==>
      && m.controlledId in db.actors && Placed(m, db.actors[m.controlledId])
      && AsListed(m, db) && !Holds(m, db)
      && !((forall id <- db.communities :: id == m.arena)
           && (forall id <- db.signals :: db.signals[id].signal.communityId == m.arena))
  {
    AssessTable(m, db);
    NoRows(m, db);
    SubsetMeans(m, db);
    if AsListed(m, db) { ListedHolds(m, db); }
    NoneExactly(CommunitiesOutside(m, db));
    NoneExactly(SignalsOutside(m, db));
    hide WellFormed, Assess, CommunitiesMatch, SignalsMatch, IdentityPresent;
    hide CommunitiesOutside, SignalsOutside, ActorsOutside, CountedConfirmations, ExactSubset, Holds, AsListed;
  }

  lemma SubsetMeans(m: Manifest, db: Database)
    requires WellFormed(m)
    ensures var cs, ss := CommunitiesOutside(m, db), SignalsOutside(m, db);
      ExactSubset(m, db) <==>
        && m.controlledId in db.actors && Placed(m, db.actors[m.controlledId]) && AsListed(m, db)
        && !(cs == {} && ss == {}) && |cs| <= |m.communities| && |ss| <= |m.signals|
        && !(|cs| == |m.communities| && |ss| == |m.signals|)
        && !(m.communities.Keys <= cs && m.signals.Keys <= ss)
  {
    PlacedIs(m, db);
    hide WellFormed, AsListed, ControlledMatches, Placed, CommunitiesOutside, SignalsOutside;
    ListedMeans(m, db);
    SomeMissing(m.communities, CommunitiesOutside(m, db));
    SomeMissing(m.signals, SignalsOutside(m, db));
  }

  lemma PlacedIs(m: Manifest, db: Database)
    ensures ControlledMatches(m, db) <==> m.controlledId in db.actors && Placed(m, db.actors[m.controlledId])
  {
  }

  lemma ListedMeans(m: Manifest, db: Database)
    ensures AsListed(m, db) <==>
      && (forall id <- CommunitiesOutside(m, db) :: id in m.communities && db.communities[id] == m.communities[id])
      && (forall id <- SignalsOutside(m, db) :: id in m.signals && db.signals[id].signal == m.signals[id])
  {
  }

  lemma SomeMissing<K, V>(rows: map<K, V>, s: set<K>)
    ensures (exists id <- rows :: id !in s) <==> !(rows.Keys <= s)
  {
    if !(rows.Keys <= s) {
      var id :| id in rows.Keys && id !in s;
      assert id in rows;
    }
  }

  lemma HoldsWhenListed(m: Manifest, db: Database)
    requires AsListed(m, db) && m.arena !in m.communities
    requires forall id <- m.signals :: m.signals[id].communityId != m.arena
    ensures m.controlledId in db.actors && Placed(m, db.actors[m.controlledId]) ==>
      (Holds(m, db) <==>
        m.communities.Keys <= CommunitiesOutside(m, db) && m.signals.Keys <= SignalsOutside(m, db))
  {
  }

  lemma ListedHolds(m: Manifest, db: Database)
    requires WellFormed(m) && AsListed(m, db)
    ensures var cs, ss := CommunitiesOutside(m, db), SignalsOutside(m, db);
      && |cs| <= |m.communities| && |ss| <= |m.signals|
      && (|cs| == |m.communities| && |ss| == |m.signals| <==> m.communities.Keys <= cs && m.signals.Keys <= ss)
      && (m.controlledId in db.actors && Placed(m, db.actors[m.controlledId]) ==>
            (Holds(m, db) <==> m.communities.Keys <= cs && m.signals.Keys <= ss))
  {
    var cs, ss := CommunitiesOutside(m, db), SignalsOutside(m, db);
    assert cs <= m.communities.Keys && ss <= m.signals.Keys;
    assert m.arena !in m.communities;
    assert forall id <- m.signals :: m.signals[id].communityId != m.arena;
    hide WellFormed;
    HoldsWhenListed(m, db);
    hide CommunitiesOutside, SignalsOutside, AsListed, Holds, Placed;
    AsManyAs(m.communities, cs);
    AsManyAs(m.signals, ss);
  }

  /** Why a database is refused: which reason comes first. */
  lemma RefusalExactly(m: Manifest, db: Database)
    ensures var cs := |set id | id in db.communities && id != m.arena|;
      var ss := |set id | id in db.signals && db.signals[id].signal.communityId != m.arena|;
      var actors := |set id | id in db.actors && db.actors[id].communityId != Some(m.arena)|;
      var votes := exists k <- db.confirmations ::
        && db.confirmations[k].actorId in db.actors
        && db.actors[db.confirmations[k].actorId].communityId.Some?
        && db.actors[db.confirmations[k].actorId].communityId != Some(m.arena);
      var full := cs == |m.communities| && ss == |m.signals| && actors == 1 && m.controlledId in db.actors && !votes;
      var whole := (forall id <- m.communities :: id in db.communities) && (forall id <- m.signals :: id in db.signals);
      var some := (exists id <- m.communities :: id in db.communities) || (exists id <- m.signals :: id in db.signals);
      var refused := Assess(m, db).Refuse? && !Linked(m, db) && !full;
      && (Assess(m, db) == Refuse(ControlledActorLinked) <==> Linked(m, db))
      && (Assess(m, db) == Refuse(ConflictingCanonical) <==> !Linked(m, db) && full && !whole)
      && (refused && (cs > |m.communities| || ss > |m.signals|) ==> Assess(m, db) == Refuse(UnexpectedRows))
      && (refused && cs <= |m.communities| && ss <= |m.signals| ==>
            Assess(m, db) == Refuse(if votes then ConfirmationsPresent
                                    else if actors > 1 then UnexpectedRows
                                    else if some || m.controlledId in db.actors then PartialCanonical
                                    else UnexpectedRows))
  {
    assert CommunitiesOutside(m, db) == set id | id in db.communities && id != m.arena;
    assert SignalsOutside(m, db) == set id | id in db.signals && db.signals[id].signal.communityId != m.arena;
    assert ActorsOutside(m, db) == set id | id in db.actors && db.actors[id].communityId != Some(m.arena);
    NoVotes(m, db);
    RefusalTable(m, db);
    hide Assess, CommunitiesOutside, SignalsOutside, ActorsOutside, CountedConfirmations, ExactSubset;
    hide CommunitiesMatch, SignalsMatch, ControlledMatches;
  }

  lemma RefusalTable(m: Manifest, db: Database)
    ensures var c, full := ReadCounts(m, db), Counts(|m.communities|, |m.signals|, 1, 1, 0);
      var some := (exists id <- m.communities :: id in db.communities) || (exists id <- m.signals :: id in db.signals);
      && (Assess(m, db) == Refuse(ControlledActorLinked) <==> Linked(m, db))
      && (Assess(m, db) == Refuse(ConflictingCanonical) <==> !Linked(m, db) && c == full && !IdentityPresent(m, db))
      && (Assess(m, db).Refuse? && !Linked(m, db) && c != full ==>
            Assess(m, db).code == if c.communities > |m.communities| || c.signals > |m.signals| then UnexpectedRows
                                  else if c.confirmations > 0 then ConfirmationsPresent
                                  else if c.actors > 1 then UnexpectedRows
                                  else if some || c.controlled > 0 then PartialCanonical
                                  else UnexpectedRows)
  {
    HoldsIs(m, db);
    assert Holds(m, db) ==> IdentityPresent(m, db);
    hide ReadCounts, ExactSubset, CommunitiesMatch, SignalsMatch, ControlledMatches, IdentityPresent, Holds;
  }

  // ---- When the writes go through -----------------------------------------

  lemma {:induction false} CommunitiesFreeExactly(m: Manifest, db: Database, n: nat)
    requires n <= |m.communityOrder| && forall id <- m.communityOrder :: id in m.communities
    ensures CommunitiesFree(m, db, n) <==> forall i :: 0 <= i < n ==> CommunityFree(m, db, i)
  {
    if n > 0 { CommunitiesFreeExactly(m, db, n - 1); }
  }

  lemma {:induction false} SignalsFreeExactly(m: Manifest, db: Database, n: nat)
    requires n <= |m.signalOrder| && forall id <- m.signalOrder :: id in m.signals
    ensures SignalsFree(m, db, n) <==> forall i :: 0 <= i < n ==> SignalFree(m, db, i)
  {
    if n > 0 { SignalsFreeExactly(m, db, n - 1); }
  }

  /** The `i`-th community takes no slug and no position from another that is not yet rewritten. */
  predicate CommunityFits(m: Manifest, db: Database, i: nat)
    requires i < |m.communityOrder| && m.communityOrder[i] in m.communities
  {
    var row := m.communities[m.communityOrder[i]];
    forall other <- db.communities ::
      other in m.communityOrder[..i + 1]
      || (db.communities[other].slug != row.slug && db.communities[other].position != row.position)
  }

  /** Nor does the `i`-th signal, within its community. */
  predicate SignalFits(m: Manifest, db: Database, i: nat)
    requires i < |m.signalOrder| && m.signalOrder[i] in m.signals
  {
    var row := m.signals[m.signalOrder[i]];
    forall other <- db.signals ::
      || other in m.signalOrder[..i + 1]
      || db.signals[other].signal.communityId != row.communityId
      || (db.signals[other].signal.slug != row.slug && db.signals[other].signal.position != row.position)
  }

  ghost predicate CommunitiesFit(m: Manifest, db: Database)
    requires forall id <- m.communityOrder :: id in m.communities
  {
    forall i :: 0 <= i < |m.communityOrder| ==> CommunityFits(m, db, i)
  }

  ghost predicate SignalsFit(m: Manifest, db: Database)
    requires forall id <- m.signalOrder :: id in m.signals
  {
    forall i :: 0 <= i < |m.signalOrder| ==> SignalFits(m, db, i)
  }

  /** No signal with a civic process changes its community. */
  ghost predicate ProcessesStay(m: Manifest, db: Database) {
    forall id <- m.signals :: id in db.signals && id in db.processes ==>
      db.signals[id].signal.communityId == m.signals[id].communityId
  }

  /** The upsert goes through exactly when nothing is in its way: the writes are in order, row by row. */
  lemma WritesGoThroughExactly(m: Manifest, db: Database)
    requires WellFormed(m)
    ensures Seed(m, db).Some? <==> CommunitiesFit(m, db) && SignalsFit(m, db) && ProcessesStay(m, db)
  {
    SeedExactly(m, db);
    CommunitiesFitExactly(m, db);
    SignalsFitExactly(m, db);
    hide Seed, CommunitiesFree, SignalsFree, UniqueCommunities, UniqueSignals, SignalsPlaced;
    hide CommunitiesFit, SignalsFit, ProcessesStay, Overwritten;
  }

  lemma CommunitiesFitExactly(m: Manifest, db: Database)
    requires forall id <- m.communityOrder :: id in m.communities
    ensures CommunitiesFree(m, db, |m.communityOrder|) <==> CommunitiesFit(m, db)
  {
    hide CommunitiesFree, CommunityFree, CommunityFits;
    CommunitiesFreeExactly(m, db, |m.communityOrder|);
    forall i | 0 <= i < |m.communityOrder| ensures CommunityFree(m, db, i) <==> CommunityFits(m, db, i) {
      CommunityFitsExactly(m, db, i);
    }
  }

  lemma CommunityFitsExactly(m: Manifest, db: Database, i: nat)
    requires i < |m.communityOrder| && m.communityOrder[i] in m.communities
    ensures CommunityFree(m, db, i) <==> CommunityFits(m, db, i)
  {
  }

  lemma SignalsFitExactly(m: Manifest, db: Database)
    requires Lists(m.signalOrder, m.signals.Keys)
    ensures SignalsFree(m, db, |m.signalOrder|) <==> SignalsFit(m, db) && ProcessesStay(m, db)
  {
    hide SignalsFree, SignalFree, SignalFits, ProcessesStay, Distinct;
    SignalsFreeExactly(m, db, |m.signalOrder|);
    ProcessesFree(m, db);
    forall i | 0 <= i < |m.signalOrder|
      ensures SignalFree(m, db, i) <==>
        && SignalFits(m, db, i)
        && (m.signalOrder[i] in db.signals && m.signalOrder[i] in db.processes ==>
              db.signals[m.signalOrder[i]].signal.communityId == m.signals[m.signalOrder[i]].communityId)
    {
      SignalFitsExactly(m, db, i);
    }
  }

  lemma SignalFitsExactly(m: Manifest, db: Database, i: nat)
    requires i < |m.signalOrder| && m.signalOrder[i] in m.signals
    ensures var id := m.signalOrder[i];
      SignalFree(m, db, i) <==>
        && SignalFits(m, db, i)
        && (id in db.signals && id in db.processes ==>
              db.signals[id].signal.communityId == m.signals[id].communityId)
  {
  }

  lemma ProcessesFree(m: Manifest, db: Database)
    requires Lists(m.signalOrder, m.signals.Keys)
    ensures ProcessesStay(m, db) <==>
      forall i :: 0 <= i < |m.signalOrder| && m.signalOrder[i] in db.signals && m.signalOrder[i] in db.processes
        ==> db.signals[m.signalOrder[i]].signal.communityId == m.signals[m.signalOrder[i]].communityId
  {
    forall id | id in m.signals ensures exists i :: 0 <= i < |m.signalOrder| && m.signalOrder[i] == id {
      assert id in m.signalOrder;
    }
  }

  /** What a successful run has written: the manifest by id, and of the controlled actor all but its commitment. */
  lemma WritesExactly(m: Manifest, db: Database)
    requires WellFormed(m) && Run(m, db).1.Ok?
    ensures var (after, out) := Run(m, db);
      if out == Ok(AlreadyCanonical) then after == db
      else
        && after.communities == db.communities + m.communities
        && after.signals.Keys == db.signals.Keys + m.signals.Keys
        && (forall id <- m.signals :: after.signals[id] ==
              SignalRow(m.signals[id], if id in db.signals then db.signals[id].extra else None))
        && (forall id <- db.signals :: id !in m.signals ==> after.signals[id] == db.signals[id])
        && after.processes == db.processes + (m.signals.Keys - db.signals.Keys)
        && after.confirmations == db.confirmations
        && after.actors == db.actors[m.controlledId :=
             Actor(m.controlledProfile, Some(m.controlledCommunity), None, None,
                   if m.controlledId in db.actors then db.actors[m.controlledId].commitment else None)]
  {
    RunWrites(m, db);
    if Run(m, db).1 != Ok(AlreadyCanonical) {
      OverwrittenRows(m, db);
      OverwrittenRest(m, db);
    }
    hide Run, Overwritten, WellFormed;
  }

  lemma RunWrites(m: Manifest, db: Database)
    requires WellFormed(m) && Run(m, db).1.Ok?
    ensures Run(m, db).1 == Ok(AlreadyCanonical) ==> Run(m, db).0 == db
    ensures Run(m, db).1 != Ok(AlreadyCanonical) ==> Run(m, db).0 == Overwritten(m, db)
  {
    hide WellFormed, Assess, Seed, Overwritten, PostInvariants, ClashFree, ReadCounts;
    SeedExactly(m, db);
  }

  lemma OverwrittenRest(m: Manifest, db: Database)
    requires WellFormed(m)
    ensures var after := Overwritten(m, db);
      && after.processes == db.processes + (m.signals.Keys - db.signals.Keys)
      && after.actors == db.actors[m.controlledId :=
           Actor(m.controlledProfile, Some(m.controlledCommunity), None, None,
                 if m.controlledId in db.actors then db.actors[m.controlledId].commitment else None)]
  {
    assert m.signalOrder[..|m.signalOrder|] == m.signalOrder;
    assert forall id :: id in m.signalOrder <==> id in m.signals;
    hide CommunitiesAfter, SignalsAfter, Distinct, UniqueCommunities, UniqueSignals, SignalsPlaced;
  }

  /** Whatever it found, a successful run leaves the manifest in place, and nothing else outside the arena. */
  lemma SuccessLeavesManifest(m: Manifest, db: Database)
    requires WellFormed(m) && Run(m, db).1.Ok?
    ensures Holds(m, Run(m, db).0) && NothingElse(m, Run(m, db).0)
  {
    RunIsCanonical(m, db);
    var after := Run(m, db).0;
    HoldsIs(m, after);
    FullRows(m, after);
    hide Run, WellFormed, Holds, NothingElse, CommunitiesMatch, SignalsMatch, ControlledMatches;
  }

  // ---- How a run ends -----------------------------------------------------

  /** Which report is given for which preflight. */
  lemma ReportExactly(m: Manifest, db: Database)
    requires WellFormed(m)
    ensures var (found, out) := (Assess(m, db), Run(m, db).1);
      && (out == Ok(AlreadyCanonical) <==> found == Exact)
      && (out == Ok(Seeded) <==> found == Empty && out.Ok?)
      && (out == Ok(Reconciled) <==> found == ContentDrift && out.Ok?)
      && (out == Ok(CompletedSubset) <==> found == CanonicalSubset && out.Ok?)
      && (forall code :: out == Err(PreflightRefused(code)) <==> found == Refuse(code))
      && (out == Err(WriteAborted) <==> !found.Refuse? && found != Exact && Seed(m, db).None?)
      && out != Err(InjectedFailure) && out != Err(LockHeld)
  {
    if Assess(m, db) == Exact { ExactPasses(m, db); }
    hide WellFormed, Assess, Seed, PostInvariants, ReadCounts;
  }

  /**
   * A run succeeds exactly when the database is exact, or else is accepted, lets the writes through, and, where its
   * content has drifted, has none of the manifest's signals in the arena and the controlled actor outside it, placed
   * nowhere only if it has confirmed nothing.
   */
  lemma SuccessExactly(m: Manifest, db: Database)
    requires WellFormed(m) && Consistent(db)
    ensures Run(m, db).1.Ok? <==>
      || Assess(m, db) == Exact
      || (&& !Assess(m, db).Refuse? && Seed(m, db).Some?
          && (Assess(m, db) == ContentDrift ==>
                && (forall id <- m.signals :: id in db.signals && db.signals[id].signal.communityId != m.arena)
                && m.controlledId in db.actors && db.actors[m.controlledId].communityId != Some(m.arena)
                && (db.actors[m.controlledId].communityId.None? ==>
                      forall k <- db.confirmations :: db.confirmations[k].actorId != m.controlledId)))
  {
    RunSucceedsExactly(m, db);
    SeedExactly(m, db);
    if Assess(m, db) == ContentDrift {
      DriftExactly(m, db);
      DriftSoundMeans(m, db);
    }
    hide WellFormed, Consistent, Run, Seed, Assess, ClashFree, DriftSound, Overwritten, Holds;
  }

  lemma DriftSoundMeans(m: Manifest, db: Database)
    requires m.controlledId in db.actors && forall id <- m.signals :: id in db.signals
    ensures DriftSound(m, db) <==>
      && (forall id <- m.signals :: db.signals[id].signal.communityId != m.arena)
      && db.actors[m.controlledId].communityId != Some(m.arena)
      && (db.actors[m.controlledId].communityId.None? ==>
            forall k <- db.confirmations :: db.confirmations[k].actorId != m.controlledId)
  {
    var votes := ByControlled(m, db);
    assert votes == {} <==> forall k <- db.confirmations :: db.confirmations[k].actorId != m.controlledId by {
      forall k | k in db.confirmations && db.confirmations[k].actorId == m.controlledId ensures k in votes {}
      forall k | k in votes ensures db.confirmations[k].actorId == m.controlledId {}
    }
    hide ByControlled;
  }

  const BARE := Database(map[], map[], map[], map[], {})

  lemma BareIsAccepted(m: Manifest)
    requires WellFormed(m)
    ensures Consistent(BARE) && Assess(m, BARE) == Empty && Seed(m, BARE).Some?
  {
    hide WellFormed, Assess, Seed;
    EmptyExactly(m, BARE);
    WritesGoThroughExactly(m, BARE);
  }

  /** A fresh database is seeded, with the manifest's rows and nothing else. */
  lemma FreshDatabaseIsSeeded(m: Manifest)
    requires WellFormed(m)
    ensures var (after, out) := Run(m, BARE);
      && out == Ok(Seeded) && Holds(m, after) && NothingElse(m, after)
      && after.communities == m.communities && after.signals.Keys == m.signals.Keys
      && after.actors.Keys == {m.controlledId} && after.confirmations == map[] && after.processes == m.signals.Keys
  {
    hide WellFormed, Consistent, Run, Assess, Seed, Holds, NothingElse, Linked;
    BareIsAccepted(m);
    SuccessExactly(m, BARE);
    ReportExactly(m, BARE);
    SuccessLeavesManifest(m, BARE);
    WritesExactly(m, BARE);
  }
}
