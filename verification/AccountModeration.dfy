/**
 * Owner moderation of accounts: ban and unban as transactions that lock one or two account rows in
 * sorted id order, decide from the rows as they were when locked, and write at commit.
 */
module AccountModeration {
  import opened Prelude

  type Id = string
  type Time = int

  datatype AccountStatus = PendingEmail | PendingPassword | PendingPasskey | Active | Suspended | Closed

  datatype Account = Account(
    status: AccountStatus,
    isOwner: bool,
    hasUserHandle: bool,
    readyAt: Option<Time>,
    suspendedAt: Option<Time>,
    closedAt: Option<Time>,
    updatedAt: Time)

  datatype Revocation = Revocation(at: Time, reason: string)
  datatype Session = Session(accountId: Id, createdAt: Time, revoked: Option<Revocation>)

  datatype Audit =
    | AccountSuspended(actor: Id, target: Id, at: Time, reason: string)
    | AccountActivated(actor: Id, target: Id, at: Time)

  /** `activatable` holds the accounts whose email, passkey, password and actor allow status `Active`. */
  datatype Database = Database(
    accounts: map<Id, Account>,
    sessions: map<Id, Session>,
    audits: seq<Audit>,
    activatable: set<Id>)

  datatype Request =
    | Ban(owner: Id, target: Id, at: Time, reason: string)
    | Unban(owner: Id, target: Id, at: Time)

  datatype Failure = AccountNotFound | InvalidTransition | ActiveRequirements | SessionCheck

  /** `Aborted` is a thrown error: the transaction rolls back. */
  datatype Outcome =
    | NotOwner
    | Missing
    | BanSelf
    | BanOwner
    | Done(account: Account, changed: bool)
    | Aborted(failure: Failure)

  // ---- Row constraints ----------------------------------------------------

  /** The CHECK constraints of the accounts table. */
  predicate AccountCheck(a: Account) {
    && (a.status in {PendingEmail, PendingPassword, PendingPasskey} ==>
          a.readyAt.None? && a.suspendedAt.None? && a.closedAt.None?)
    && (a.status == Active ==> a.readyAt.Some? && a.suspendedAt.None? && a.closedAt.None?)
    && (a.status == Suspended ==> a.readyAt.Some? && a.suspendedAt.Some? && a.closedAt.None?)
    && (a.status == Closed ==> a.readyAt.Some? && a.closedAt.Some?)
    && (a.status !in {PendingEmail, PendingPassword, PendingPasskey} ==> a.hasUserHandle)
  }

  predicate SessionRowCheck(s: Session) {
    s.revoked.Some? ==> s.revoked.value.at >= s.createdAt
  }

  ghost predicate Consistent(db: Database) {
    && (forall id <- db.accounts :: AccountCheck(db.accounts[id]))
    && (forall id <- db.sessions :: SessionRowCheck(db.sessions[id]))
  }

  // ---- The account state machine ------------------------------------------

  function ValidTransitions(from: AccountStatus): set<AccountStatus> {
    match from
    case PendingEmail => {PendingPassword}
    case PendingPassword => {PendingPasskey}
    case PendingPasskey => {PendingPassword, Active}
    case Active => {Suspended, Closed}
    case Suspended => {Active, Closed}
    case Closed => {}
  }

  function OrElse(a: Option<Time>, at: Time): Option<Time> {
    if a.Some? then a else Some(at)
  }

  function Moved(a: Account, to: AccountStatus, at: Time): Account {
    var next := a.(status := to, updatedAt := at);
    if a.status == PendingPasskey && to == Active then
      next.(readyAt := Some(at), suspendedAt := None, closedAt := None)
    else if to == Suspended then
      next.(readyAt := OrElse(a.readyAt, at), suspendedAt := Some(at), closedAt := None)
    else if a.status == Suspended && to == Active then
      next.(readyAt := OrElse(a.readyAt, at), suspendedAt := None, closedAt := None)
    else if to == Closed then
      next.(readyAt := OrElse(a.readyAt, at), closedAt := Some(at))
    else
      next
  }

  /** `transitionAccountState` reads the row again, inside the transaction. */
  function Transition(db: Database, id: Id, to: AccountStatus, at: Time): Result<Account, Failure>
  {
    if id !in db.accounts then Err(AccountNotFound)
    else if to !in ValidTransitions(db.accounts[id].status) then Err(InvalidTransition)
    else if to == Active && !(db.accounts[id].hasUserHandle && id in db.activatable) then Err(ActiveRequirements)
    else Ok(Moved(db.accounts[id], to, at))
  }

  predicate Revocable(s: Session, id: Id) {
    s.accountId == id && s.revoked.None?
  }

  function RevokeAll(sessions: map<Id, Session>, id: Id, at: Time): map<Id, Session> {
    map k | k in sessions ::
      if Revocable(sessions[k], id)
      then sessions[k].(revoked := Some(Revocation(at, "account_suspended")))
      else sessions[k]
  }

  // ---- One transaction ----------------------------------------------------

  datatype Located = LacksOwner | LacksTarget | Both(owner: Account, target: Account)

  function Locate(seen: map<Id, Account>, owner: Id, target: Id): Located {
    if owner !in seen || !seen[owner].isOwner || seen[owner].status != Active then LacksOwner
    else if target !in seen then LacksTarget
    else Both(seen[owner], seen[target])
  }

  /** What the transaction writes, given the rows `seen` when they were locked. */
  function Body(db: Database, seen: map<Id, Account>, req: Request): (Database, Outcome)
  {
    match Locate(seen, req.owner, req.target)
    case LacksOwner => (db, NotOwner)
    case LacksTarget => (db, Missing)
    case Both(_, target) =>
      match req
      case Ban(owner, id, at, reason) =>
        if id == owner then (db, BanSelf)
        else if target.isOwner then (db, BanOwner)
        else if target.status != Active then (db, Done(target, false))
        else (
          match Transition(db, id, Suspended, at)
          case Err(e) => (db, Aborted(e))
          case Ok(a) =>
            if exists k <- db.sessions :: Revocable(db.sessions[k], id) && at < db.sessions[k].createdAt then
              (db, Aborted(SessionCheck))
            else
              (db.(accounts := db.accounts[id := a],
                   sessions := RevokeAll(db.sessions, id, at),
                   audits := db.audits + [AccountSuspended(owner, id, at, reason)]),
               Done(a, true))
        )
      case Unban(owner, id, at) =>
        if target.status != Suspended then (db, Done(target, false))
        else
          match Transition(db, id, Active, at)
          case Err(e) => (db, Aborted(e))
          case Ok(a) =>
            (db.(accounts := db.accounts[id := a],
                 audits := db.audits + [AccountActivated(owner, id, at)]),
             Done(a, true))
  }

  function Seen(accounts: map<Id, Account>, ids: seq<Id>): map<Id, Account> {
    map id | id in accounts && id in ids :: accounts[id]
  }

  /** The transaction run alone. */
  function Exec(db: Database, req: Request): (Database, Outcome) {
    Body(db, Seen(db.accounts, [req.owner, req.target]), req)
  }

  /** Transactions run one after another, in the given order. */
  function Serial(db: Database, reqs: seq<Request>, order: seq<nat>): (r: (Database, seq<Outcome>))
    requires forall k :: 0 <= k < |order| ==> order[k] < |reqs|
    ensures |r.1| == |order|
  {
    if order == [] then
      (db, [])
    else
      var before := Serial(db, reqs, order[..|order| - 1]);
      var last := Exec(before.0, reqs[order[|order| - 1]]);
      (last.0, before.1 + [last.1])
  }

  // ---- What one transaction guarantees ------------------------------------

  /** A ban or unban touches one account row at most, and only with both rows in their expected states. */
  lemma ExecEffect(db: Database, req: Request)
    ensures var (after, out) := Exec(db, req);
      && after.activatable == db.activatable
      && after.accounts.Keys == db.accounts.Keys
      && (forall id <- db.accounts :: id != req.target ==> after.accounts[id] == db.accounts[id])
      && (out.Done? && out.changed <==> after != db)
      && (after != db ==>
            && req.owner in db.accounts && req.target in db.accounts
            && db.accounts[req.owner].isOwner && db.accounts[req.owner].status == Active
            && var was, now := db.accounts[req.target], after.accounts[req.target];
               && now == out.account
               && now.isOwner == was.isOwner
               && (req.Ban? ==> was.status == Active && !was.isOwner && now.status == Suspended)
               && (req.Unban? ==> was.status == Suspended && now.status == Active))
  {
    var (after, out) := Exec(db, req);
    if out.Done? && out.changed {
      assert |after.audits| == |db.audits| + 1;
    }
  }

  lemma ExecKeepsChecks(db: Database, req: Request)
    requires Consistent(db)
    ensures Consistent(Exec(db, req).0)
  {
    var (after, out) := Exec(db, req);
    if after != db {
      forall id <- after.accounts ensures AccountCheck(after.accounts[id]) {
        assert AccountCheck(db.accounts[id]);
      }
      forall k <- after.sessions ensures SessionRowCheck(after.sessions[k]) {
        assert SessionRowCheck(db.sessions[k]);
      }
    }
  }

  /** The caller is an active owner, by the table. */
  predicate ActsAsOwner(db: Database, id: Id) {
    id in db.accounts && db.accounts[id].isOwner && db.accounts[id].status == Active
  }

  /** A session of the account that is live and younger than the given clock. */
  ghost predicate HasLaterSession(db: Database, id: Id, at: Time) {
    exists k <- db.sessions ::
      db.sessions[k].accountId == id && db.sessions[k].revoked.None? && db.sessions[k].createdAt > at
  }

  /** Which answer a ban gives, for every database; it takes place whether or not the target has sessions. */
  lemma BanAnswersExactly(db: Database, owner: Id, target: Id, at: Time, reason: string)
    ensures var out := Exec(db, Ban(owner, target, at, reason)).1;
      && (out == NotOwner <==> !ActsAsOwner(db, owner))
      && (out == Missing <==> ActsAsOwner(db, owner) && target !in db.accounts)
      && (out == BanSelf <==> ActsAsOwner(db, owner) && target == owner)
      && (out == BanOwner <==>
            ActsAsOwner(db, owner) && target != owner && target in db.accounts && db.accounts[target].isOwner)
      && (out.Done? && !out.changed <==>
            && ActsAsOwner(db, owner) && target != owner && target in db.accounts
            && !db.accounts[target].isOwner && db.accounts[target].status != Active)
      && (out.Done? && out.changed <==>
            && ActsAsOwner(db, owner) && target in db.accounts && !db.accounts[target].isOwner
            && db.accounts[target].status == Active && !HasLaterSession(db, target, at))
      && (out.Done? && !out.changed ==> out.account == db.accounts[target])
      && (out.Aborted? ==> out == Aborted(SessionCheck))
  {
    var seen := Seen(db.accounts, [owner, target]);
    assert owner in db.accounts ==> seen[owner] == db.accounts[owner];
    assert target in db.accounts ==> seen[target] == db.accounts[target];
    if ActsAsOwner(db, owner) && target in db.accounts && !db.accounts[target].isOwner
       && db.accounts[target].status == Active {
      BanAbortsIffLaterSession(db, owner, target, at, reason);
    }
  }

  /** What a ban that takes place writes: the target's row, its live sessions, one audit row, and nothing else. */
  lemma BanWritesExactly(db: Database, owner: Id, target: Id, at: Time, reason: string)
    requires Consistent(db) && Exec(db, Ban(owner, target, at, reason)).1.Done?
    requires Exec(db, Ban(owner, target, at, reason)).1.changed
    ensures target in db.accounts
    ensures var (after, out) := Exec(db, Ban(owner, target, at, reason));
      && out.account == db.accounts[target].(status := Suspended, suspendedAt := Some(at), updatedAt := at)
      && after.accounts == db.accounts[target := out.account]
      && after.audits == db.audits + [AccountSuspended(owner, target, at, reason)]
      && after.sessions.Keys == db.sessions.Keys
      && (forall k <- db.sessions :: after.sessions[k] ==
            if db.sessions[k].accountId == target && db.sessions[k].revoked.None?
            then db.sessions[k].(revoked := Some(Revocation(at, "account_suspended"))) else db.sessions[k])
  {
    BanAnswersExactly(db, owner, target, at, reason);
    assert AccountCheck(db.accounts[target]);
    assert ValidTransitions(Active) == {Suspended, Closed};
  }

  /** Which answer an unban gives: it takes place for every suspended account that may be active. */
  lemma UnbanAnswersExactly(db: Database, owner: Id, target: Id, at: Time)
    ensures var out := Exec(db, Unban(owner, target, at)).1;
      && (out == NotOwner <==> !ActsAsOwner(db, owner))
      && (out == Missing <==> ActsAsOwner(db, owner) && target !in db.accounts)
      && (out.Done? && !out.changed <==>
            ActsAsOwner(db, owner) && target in db.accounts && db.accounts[target].status != Suspended)
      && (out.Done? && out.changed <==>
            && ActsAsOwner(db, owner) && target in db.accounts && db.accounts[target].status == Suspended
            && db.accounts[target].hasUserHandle && target in db.activatable)
      && (out.Aborted? <==>
            && ActsAsOwner(db, owner) && target in db.accounts && db.accounts[target].status == Suspended
            && !(db.accounts[target].hasUserHandle && target in db.activatable))
      && (out.Done? && !out.changed ==> out.account == db.accounts[target])
      && (out.Aborted? ==> out == Aborted(ActiveRequirements))
  {
    var seen := Seen(db.accounts, [owner, target]);
    assert owner in db.accounts ==> seen[owner] == db.accounts[owner];
    assert target in db.accounts ==> seen[target] == db.accounts[target];
  }

  /** What an unban that takes place writes: the target's row and one audit row; no session comes back. */
  lemma UnbanWritesExactly(db: Database, owner: Id, target: Id, at: Time)
    requires Consistent(db) && Exec(db, Unban(owner, target, at)).1.Done?
    requires Exec(db, Unban(owner, target, at)).1.changed
    ensures target in db.accounts
    ensures var (after, out) := Exec(db, Unban(owner, target, at));
      && out.account == db.accounts[target].(status := Active, suspendedAt := None, updatedAt := at)
      && after == db.(accounts := db.accounts[target := out.account],
                      audits := db.audits + [AccountActivated(owner, target, at)])
  {
    UnbanAnswersExactly(db, owner, target, at);
    assert AccountCheck(db.accounts[target]);
  }

  /** A ban aborts exactly when the target has a live session created after the ban's clock. */
  lemma BanAbortsIffLaterSession(db: Database, owner: Id, target: Id, at: Time, reason: string)
    requires owner in db.accounts && db.accounts[owner].isOwner && db.accounts[owner].status == Active
    requires target in db.accounts && !db.accounts[target].isOwner && db.accounts[target].status == Active
    ensures Exec(db, Ban(owner, target, at, reason)).1.Aborted?
       <==> exists k <- db.sessions ::
              db.sessions[k].accountId == target && db.sessions[k].revoked.None? && db.sessions[k].createdAt > at
  {
    var seen := Seen(db.accounts, [owner, target]);
    assert seen[owner] == db.accounts[owner] && seen[target] == db.accounts[target];
    if k :| k in db.sessions && db.sessions[k].accountId == target
            && db.sessions[k].revoked.None? && db.sessions[k].createdAt > at {
      assert Revocable(db.sessions[k], target) && at < db.sessions[k].createdAt;
    }
  }

  /** Unbanning restores the account row except its update time; the sessions stay revoked. */
  lemma UnbanUndoesBan(db: Database, owner: Id, target: Id, t1: Time, t2: Time, reason: string)
    requires Consistent(db)
    requires Exec(db, Ban(owner, target, t1, reason)).1.Done?
    requires Exec(db, Ban(owner, target, t1, reason)).1.changed
    requires target in db.activatable
    ensures var banned := Exec(db, Ban(owner, target, t1, reason)).0;
      var (restored, out) := Exec(banned, Unban(owner, target, t2));
      && out.Done? && out.changed
      && restored.accounts == db.accounts[target := db.accounts[target].(updatedAt := t2)]
      && restored.sessions == RevokeAll(db.sessions, target, t1)
      && (forall k <- restored.sessions :: restored.sessions[k].accountId == target ==>
            restored.sessions[k].revoked.Some?)
  {
    ExecEffect(db, Ban(owner, target, t1, reason));
    var banned := Exec(db, Ban(owner, target, t1, reason)).0;
    assert AccountCheck(db.accounts[target]);
    var seen := Seen(banned.accounts, [owner, target]);
    assert seen[owner] == banned.accounts[owner] && seen[target] == banned.accounts[target];
    assert banned.accounts[target].(status := Active, updatedAt := t2, suspendedAt := None, closedAt := None)
        == db.accounts[target].(updatedAt := t2);
  }

  /** A repeated ban, or a repeated unban, changes nothing. */
  lemma RepeatChangesNothing(db: Database, req: Request, again: Request)
    requires Exec(db, req).1.Done? && again.target == req.target && again.Ban? == req.Ban?
    ensures Exec(Exec(db, req).0, again).0 == Exec(db, req).0
  {
    ExecEffect(db, req);
    ExecEffect(Exec(db, req).0, again);
  }

  // ---- The audit trail ----------------------------------------------------

  function Replay(statuses: map<Id, AccountStatus>, audits: seq<Audit>): map<Id, AccountStatus> {
    if audits == [] then
      statuses
    else
      var before := Replay(statuses, audits[..|audits| - 1]);
      match audits[|audits| - 1]
      case AccountSuspended(_, target, _, _) => before[target := Suspended]
      case AccountActivated(_, target, _) => before[target := Active]
  }

  function Statuses(accounts: map<Id, Account>): map<Id, AccountStatus> {
    map id | id in accounts :: accounts[id].status
  }

  function ChangeCount(outs: seq<Outcome>): nat {
    if outs == [] then
      0
    else
      var last := outs[|outs| - 1];
      ChangeCount(outs[..|outs| - 1]) + if last.Done? && last.changed then 1 else 0
  }

  /** A change writes one audit row, which names the target and its new status. */
  lemma ExecAppendsAudit(db: Database, req: Request)
    ensures var after := Exec(db, req).0;
      after != db ==>
        after.audits == db.audits + [match req
                                     case Ban(owner, id, at, reason) => AccountSuspended(owner, id, at, reason)
                                     case Unban(owner, id, at) => AccountActivated(owner, id, at)]
  {
  }

  lemma ExecAudits(db: Database, req: Request, old0: seq<Audit>, statuses: map<Id, AccountStatus>, trail: seq<Audit>)
    requires db.audits == old0 + trail && Statuses(db.accounts) == Replay(statuses, trail)
    ensures var (after, out) := Exec(db, req);
      exists longer :: after.audits == old0 + longer
        && Statuses(after.accounts) == Replay(statuses, longer)
        && |longer| == |trail| + if out.Done? && out.changed then 1 else 0
  {
    ExecEffect(db, req);
    ExecAppendsAudit(db, req);
    hide Exec;
    var (after, out) := Exec(db, req);
    if after != db {
      var entry := after.audits[|after.audits| - 1];
      var longer := trail + [entry];
      assert after.audits == db.audits + [entry] == old0 + longer;
      assert longer[..|longer| - 1] == trail;
      assert Statuses(after.accounts) == Statuses(db.accounts)[req.target := after.accounts[req.target].status];
    } else {
      assert after.audits == old0 + trail;
    }
  }

  /** The audit rows written since the start account, in order, for every status change and nothing else. */
  lemma {:induction false} AuditTrailExplainsStatus(db: Database, reqs: seq<Request>, order: seq<nat>)
    requires forall k :: 0 <= k < |order| ==> order[k] < |reqs|
    ensures var (after, outs) := Serial(db, reqs, order);
      exists trail :: after.audits == db.audits + trail
        && Statuses(after.accounts) == Replay(Statuses(db.accounts), trail)
        && |trail| == ChangeCount(outs)
  {
    var (after, outs) := Serial(db, reqs, order);
    if order == [] {
      var trail: seq<Audit> := [];
      assert after.audits == db.audits + trail;
    } else {
      var shorter := order[..|order| - 1];
      AuditTrailExplainsStatus(db, reqs, shorter);
      var (mid, outs0) := Serial(db, reqs, shorter);
      var trail :| mid.audits == db.audits + trail
        && Statuses(mid.accounts) == Replay(Statuses(db.accounts), trail) && |trail| == ChangeCount(outs0);
      ExecAudits(mid, reqs[order[|order| - 1]], db.audits, Statuses(db.accounts), trail);
      assert outs[..|outs| - 1] == outs0;
    }
  }

  // ---- Concurrent transactions --------------------------------------------

  /** The ids in the order they are locked; `leq(a, b)` stands for `a.localeCompare(b) <= 0`. */
  function OrderedIds(leq: (Id, Id) -> bool, owner: Id, target: Id): seq<Id> {
    if owner == target then [owner]
    else if leq(owner, target) then [owner, target]
    else [target, owner]
  }

  /** That is the stable sort of the two ids. */
  lemma OrderedIdsIsSort(leq: (Id, Id) -> bool, owner: Id, target: Id)
    requires owner != target
    ensures OrderedIds(leq, owner, target) == SortBy(leq, [owner, target])
  {
    assert [owner, target][1..] == [target] && [target][1..] == [];
    assert SortBy(leq, [target]) == [target];
    assert SortBy(leq, [owner, target]) == Insert(leq, owner, [target]);
  }

  /** `todo` are the ids still to lock, in order; `tried` those already asked for; `seen` the rows they gave. */
  datatype Txn = Txn(req: Request, todo: seq<Id>, tried: set<Id>, seen: map<Id, Account>, outcome: Option<Outcome>)

  /** `locks` maps a locked account row to its transaction; `commits` lists finished ones in commit order. */
  datatype State = State(db: Database, locks: map<Id, nat>, txns: seq<Txn>, commits: seq<nat>)

  function Start(leq: (Id, Id) -> bool, db: Database, reqs: seq<Request>): State {
    var txns := seq(|reqs|, i requires 0 <= i < |reqs| =>
      Txn(reqs[i], OrderedIds(leq, reqs[i].owner, reqs[i].target), {}, map[], None));
    State(db, map[], txns, [])
  }

  predicate Unfinished(s: State, i: nat) {
    i < |s.txns| && s.txns[i].outcome.None?
  }

  /** Transaction `i` needs a row lock that transaction `j` holds. */
  predicate WaitsFor(s: State, i: nat, j: nat) {
    && Unfinished(s, i)
    && var todo := s.txns[i].todo;
       todo != [] && todo[0] in s.locks && s.locks[todo[0]] == j != i
  }

  predicate Blocked(s: State, i: nat) {
    && Unfinished(s, i)
    && var todo := s.txns[i].todo;
       todo != [] && todo[0] in s.locks && s.locks[todo[0]] != i
  }

  predicate CanStep(s: State, i: nat) {
    Unfinished(s, i) && !Blocked(s, i)
  }

  /** `SELECT ... FOR UPDATE` of the next id: an absent row is not locked. */
  function Lock(s: State, i: nat): State
    requires CanStep(s, i) && s.txns[i].todo != []
  {
    var id := s.txns[i].todo[0];
    var t := s.txns[i].(todo := s.txns[i].todo[1..], tried := s.txns[i].tried + {id});
    if id in s.db.accounts then
      s.(locks := s.locks[id := i], txns := s.txns[i := t.(seen := t.seen[id := s.db.accounts[id]])])
    else
      s.(txns := s.txns[i := t])
  }

  function Release(locks: map<Id, nat>, i: nat): map<Id, nat> {
    map id | id in locks && locks[id] != i :: locks[id]
  }

  /** Commit or rollback: the writes become visible and every lock is released. */
  function Finish(s: State, i: nat): State
    requires CanStep(s, i)
  {
    var t := s.txns[i];
    var (db, out) := Body(s.db, t.seen, t.req);
    State(db, Release(s.locks, i), s.txns[i := t.(outcome := Some(out))], s.commits + [i])
  }

  function Step(s: State, i: nat): State
    requires CanStep(s, i)
  {
    if s.txns[i].todo != [] then Lock(s, i) else Finish(s, i)
  }

  /** A schedule names the transaction to run next; a blocked or finished one just waits. */
  function Run(s: State, schedule: seq<nat>): State {
    if schedule == [] then
      s
    else
      var before := Run(s, schedule[..|schedule| - 1]);
      var i := schedule[|schedule| - 1];
      if CanStep(before, i) then Step(before, i) else before
  }

  // ---- Invariants ---------------------------------------------------------

  /** What transaction `i` holds and has seen agrees with the committed rows. */
  predicate Holds(s: State, i: nat)
    requires i < |s.txns|
  {
    var t := s.txns[i];
    && t.seen.Keys == t.tried * s.db.accounts.Keys
    && (forall id <- t.seen :: t.seen[id] == s.db.accounts[id] && id in s.locks && s.locks[id] == i)
  }

  ghost predicate Locking(s: State) {
    && (forall i :: Unfinished(s, i) ==> Holds(s, i))
    && (forall id <- s.locks :: Unfinished(s, s.locks[id]) && id in s.txns[s.locks[id]].seen)
  }

  /** The ids already tried are a prefix of the sorted ids, the others are still to do. */
  predicate Shape(ids: seq<Id>, t: Txn) {
    || (t.todo == ids && t.tried == {})
    || (|ids| == 2 && t.todo == [ids[1]] && t.tried == {ids[0]})
    || (t.todo == [] && t.tried == {t.req.owner, t.req.target})
  }

  ghost predicate Committed(s: State) {
    && (forall k :: 0 <= k < |s.commits| ==> s.commits[k] < |s.txns| && s.txns[s.commits[k]].outcome.Some?)
    && (forall j, k :: 0 <= j < k < |s.commits| ==> s.commits[j] != s.commits[k])
    && (forall i :: 0 <= i < |s.txns| && s.txns[i].outcome.Some? ==> i in s.commits)
  }

  ghost predicate Shapes(leq: (Id, Id) -> bool, reqs: seq<Request>, s: State) {
    && |s.txns| == |reqs|
    && forall i :: 0 <= i < |reqs| ==>
         && s.txns[i].req == reqs[i]
         && Shape(OrderedIds(leq, reqs[i].owner, reqs[i].target), s.txns[i])
  }

  ghost predicate Inv(leq: (Id, Id) -> bool, reqs: seq<Request>, s: State) {
    Shapes(leq, reqs, s) && Locking(s) && Committed(s)
  }

  lemma StartInv(leq: (Id, Id) -> bool, db: Database, reqs: seq<Request>)
    ensures Inv(leq, reqs, Start(leq, db, reqs))
  {
  }

  lemma LockKeepsShape(ids: seq<Id>, t: Txn, after: Txn)
    requires Shape(ids, t) && t.todo != []
    requires after.req == t.req && after.todo == t.todo[1..] && after.tried == t.tried + {t.todo[0]}
    requires var (o, r) := (t.req.owner, t.req.target);
      ids == [o, r] || ids == [r, o] || (o == r && ids == [o])
    ensures Shape(ids, after)
  {
  }

  lemma LockKeepsLocking(s: State, i: nat)
    requires Locking(s) && CanStep(s, i) && s.txns[i].todo != []
    ensures Locking(Lock(s, i))
  {
    var after := Lock(s, i);
    assert Holds(s, i);
    assert Holds(after, i);
    forall j | Unfinished(after, j) && j != i ensures Holds(after, j) {
      assert Unfinished(s, j) && Holds(s, j);
    }
    forall id <- after.locks ensures Unfinished(after, after.locks[id]) && id in after.txns[after.locks[id]].seen {
      if id in s.locks { assert Unfinished(s, s.locks[id]); }
    }
  }

  lemma LockKeepsInv(leq: (Id, Id) -> bool, reqs: seq<Request>, s: State, i: nat)
    requires Inv(leq, reqs, s) && CanStep(s, i) && s.txns[i].todo != []
    ensures Inv(leq, reqs, Lock(s, i))
  {
    var after := Lock(s, i);
    LockKeepsShape(OrderedIds(leq, reqs[i].owner, reqs[i].target), s.txns[i], after.txns[i]);
    LockKeepsLocking(s, i);
    assert forall j :: 0 <= j < |reqs| && j != i ==> after.txns[j] == s.txns[j];
    assert Shapes(leq, reqs, after);
    assert Committed(after);
  }

  /** With both rows locked, what was seen is what is there: the body runs as it would alone. */
  lemma BodyIsExec(leq: (Id, Id) -> bool, reqs: seq<Request>, s: State, i: nat)
    requires Inv(leq, reqs, s) && Unfinished(s, i) && s.txns[i].todo == []
    ensures Body(s.db, s.txns[i].seen, s.txns[i].req) == Exec(s.db, reqs[i])
    ensures reqs[i].target in s.db.accounts ==> reqs[i].target in s.locks && s.locks[reqs[i].target] == i
  {
    var t := s.txns[i];
    assert Shape(OrderedIds(leq, reqs[i].owner, reqs[i].target), t) && Holds(s, i);
    assert t.tried == {t.req.owner, t.req.target};
    assert t.seen == Seen(s.db.accounts, [t.req.owner, t.req.target]);
  }

  /** A write to the one row that `i` has locked leaves every other transaction's view true. */
  lemma FinishKeepsLocking(s: State, i: nat, target: Id, db: Database, out: Outcome)
    requires Locking(s) && Unfinished(s, i)
    requires target in s.db.accounts ==> target in s.locks && s.locks[target] == i
    requires db.accounts.Keys == s.db.accounts.Keys
    requires forall id <- s.db.accounts :: id != target ==> db.accounts[id] == s.db.accounts[id]
    ensures Locking(State(db, Release(s.locks, i), s.txns[i := s.txns[i].(outcome := Some(out))], s.commits + [i]))
  {
    var after := State(db, Release(s.locks, i), s.txns[i := s.txns[i].(outcome := Some(out))], s.commits + [i]);
    forall j | Unfinished(after, j) ensures Holds(after, j) {
      assert Unfinished(s, j) && Holds(s, j);
    }
    forall id <- after.locks ensures Unfinished(after, after.locks[id]) && id in after.txns[after.locks[id]].seen {
      assert Unfinished(s, s.locks[id]);
    }
  }

  lemma FinishKeepsInv(leq: (Id, Id) -> bool, reqs: seq<Request>, s: State, i: nat)
    requires Inv(leq, reqs, s) && CanStep(s, i) && s.txns[i].todo == []
    ensures Inv(leq, reqs, Finish(s, i))
  {
    var after := Finish(s, i);
    BodyIsExec(leq, reqs, s, i);
    ExecEffect(s.db, reqs[i]);
    FinishKeepsLocking(s, i, reqs[i].target, after.db, Exec(s.db, reqs[i]).1);
    assert forall j :: 0 <= j < |reqs| && j != i ==> after.txns[j] == s.txns[j];
    assert Shapes(leq, reqs, after);
    assert Committed(after);
  }

  /** The committed effects are those of a serial run in commit order. */
  ghost predicate MatchesSerial(db: Database, reqs: seq<Request>, s: State) {
    && (forall k :: 0 <= k < |s.commits| ==> s.commits[k] < |reqs| == |s.txns|)
    && var (after, outs) := Serial(db, reqs, s.commits);
       && s.db == after
       && forall k :: 0 <= k < |s.commits| ==> s.txns[s.commits[k]].outcome == Some(outs[k])
  }

  lemma FinishKeepsSerial(db: Database, reqs: seq<Request>, s: State, i: nat)
    requires MatchesSerial(db, reqs, s) && |s.txns| == |reqs| && Committed(s)
    requires CanStep(s, i) && Body(s.db, s.txns[i].seen, s.txns[i].req) == Exec(s.db, reqs[i])
    ensures MatchesSerial(db, reqs, Finish(s, i))
  {
    hide Body, Exec, Release, Blocked;
    var after := Finish(s, i);
    assert after.commits[..|after.commits| - 1] == s.commits;
    assert forall k :: 0 <= k < |s.commits| ==> s.commits[k] != i;
  }

  lemma LockKeepsSerial(db: Database, reqs: seq<Request>, s: State, i: nat)
    requires MatchesSerial(db, reqs, s) && CanStep(s, i) && s.txns[i].todo != [] && Committed(s)
    ensures MatchesSerial(db, reqs, Lock(s, i))
  {
    hide Serial;
  }

  lemma StepKeepsSerial(leq: (Id, Id) -> bool, db: Database, reqs: seq<Request>, s: State, i: nat)
    requires Inv(leq, reqs, s) && MatchesSerial(db, reqs, s) && CanStep(s, i)
    ensures Inv(leq, reqs, Step(s, i)) && MatchesSerial(db, reqs, Step(s, i))
  {
    hide Shapes, Locking, Committed, MatchesSerial, Lock, Finish, Exec, Body, Blocked;
    ShapesSize(leq, reqs, s);
    if s.txns[i].todo != [] {
      LockKeepsInv(leq, reqs, s, i);
      LockKeepsSerial(db, reqs, s, i);
    } else {
      BodyIsExec(leq, reqs, s, i);
      FinishKeepsInv(leq, reqs, s, i);
      FinishKeepsSerial(db, reqs, s, i);
    }
  }

  lemma ShapesSize(leq: (Id, Id) -> bool, reqs: seq<Request>, s: State)
    requires Shapes(leq, reqs, s)
    ensures |s.txns| == |reqs|
    ensures forall i :: 0 <= i < |reqs| ==> s.txns[i].req == reqs[i]
  {
  }

  /** Every schedule of every set of requests: the database and each outcome are those of the commit order. */
  lemma {:induction false} ConcurrentIsSerial(
      leq: (Id, Id) -> bool, db: Database, reqs: seq<Request>, schedule: seq<nat>)
    ensures var s := Run(Start(leq, db, reqs), schedule);
      Inv(leq, reqs, s) && MatchesSerial(db, reqs, s)
  {
    if schedule == [] {
      StartInv(leq, db, reqs);
    } else {
      var shorter, i := schedule[..|schedule| - 1], schedule[|schedule| - 1];
      ConcurrentIsSerial(leq, db, reqs, shorter);
      var before := Run(Start(leq, db, reqs), shorter);
      if CanStep(before, i) {
        StepKeepsSerial(leq, db, reqs, before, i);
      }
    }
  }

  lemma {:induction false} SerialKeeps(db: Database, reqs: seq<Request>, order: seq<nat>)
    requires forall k :: 0 <= k < |order| ==> order[k] < |reqs|
    ensures var after := Serial(db, reqs, order).0;
      && after.accounts.Keys == db.accounts.Keys
      && (Consistent(db) ==> Consistent(after))
      && (forall id <- db.accounts :: db.accounts[id].isOwner && db.accounts[id].status == Active ==>
            after.accounts[id] == db.accounts[id])
  {
    if order != [] {
      var mid := Serial(db, reqs, order[..|order| - 1]).0;
      var req := reqs[order[|order| - 1]];
      SerialKeeps(db, reqs, order[..|order| - 1]);
      ExecEffect(mid, req);
      if Consistent(mid) { ExecKeepsChecks(mid, req); }
    }
  }

  /** No interleaving breaks a CHECK or touches an active owner, and no stale read ever surfaces as an error. */
  lemma ConcurrentRunSafe(leq: (Id, Id) -> bool, db: Database, reqs: seq<Request>, schedule: seq<nat>)
    requires Consistent(db)
    ensures var s := Run(Start(leq, db, reqs), schedule);
      && Consistent(s.db)
      && (forall id <- db.accounts :: db.accounts[id].isOwner && db.accounts[id].status == Active ==>
            id in s.db.accounts && s.db.accounts[id] == db.accounts[id])
      && (exists trail :: s.db.audits == db.audits + trail
            && Statuses(s.db.accounts) == Replay(Statuses(db.accounts), trail))
      && (forall i :: 0 <= i < |s.txns| && s.txns[i].outcome.Some? ==>
            s.txns[i].outcome.value !in {Aborted(AccountNotFound), Aborted(InvalidTransition)})
  {
    ConcurrentIsSerial(leq, db, reqs, schedule);
    var s := Run(Start(leq, db, reqs), schedule);
    SerialKeeps(db, reqs, s.commits);
    AuditTrailExplainsStatus(db, reqs, s.commits);
    forall i | 0 <= i < |s.txns| && s.txns[i].outcome.Some?
      ensures s.txns[i].outcome.value !in {Aborted(AccountNotFound), Aborted(InvalidTransition)}
    {
      var k :| 0 <= k < |s.commits| && s.commits[k] == i;
      SerialOutcome(db, reqs, s.commits, k);
    }
  }

  lemma {:induction false} SerialOutcome(db: Database, reqs: seq<Request>, order: seq<nat>, k: nat)
    requires k < |order| && forall j :: 0 <= j < |order| ==> order[j] < |reqs|
    ensures Serial(db, reqs, order).1[k] !in {Aborted(AccountNotFound), Aborted(InvalidTransition)}
  {
    if k < |order| - 1 {
      SerialOutcome(db, reqs, order[..|order| - 1], k);
    }
  }

  // ---- Deadlock -----------------------------------------------------------

  function Awaited(s: State, i: nat): Id
    requires Blocked(s, i)
  {
    s.txns[i].todo[0]
  }

  /** Along a wait the awaited id grows, since each transaction locks in increasing order. */
  lemma WaitIncreases(leq: (Id, Id) -> bool, reqs: seq<Request>, s: State, i: nat, j: nat)
    requires TotalPreorder(leq) && Inv(leq, reqs, s)
    requires WaitsFor(s, i, j) && Blocked(s, j)
    ensures leq(Awaited(s, i), Awaited(s, j)) && Awaited(s, i) != Awaited(s, j)
  {
    var t := s.txns[j];
    assert Shape(OrderedIds(leq, reqs[j].owner, reqs[j].target), t) && Holds(s, j) && Awaited(s, i) in t.tried;
    hide Inv, OrderedIds;
  }

  ghost predicate WaitPath(s: State, path: seq<nat>) {
    |path| >= 2 && forall k :: 0 <= k < |path| - 1 ==> WaitsFor(s, path[k], path[k + 1])
  }

  lemma {:induction false} PathIncreases(leq: (Id, Id) -> bool, reqs: seq<Request>, s: State, path: seq<nat>)
    requires TotalPreorder(leq) && Antisymmetric(leq) && Inv(leq, reqs, s)
    requires WaitPath(s, path) && Blocked(s, path[|path| - 1])
    ensures Blocked(s, path[0])
    ensures leq(Awaited(s, path[0]), Awaited(s, path[|path| - 1]))
    ensures Awaited(s, path[0]) != Awaited(s, path[|path| - 1])
  {
    assert WaitsFor(s, path[0], path[1]);
    if |path| == 2 {
      WaitIncreases(leq, reqs, s, path[0], path[1]);
    } else {
      var rest := path[1..];
      forall k | 0 <= k < |rest| - 1 ensures WaitsFor(s, rest[k], rest[k + 1]) {
        assert WaitsFor(s, path[k + 1], path[k + 2]);
      }
      PathIncreases(leq, reqs, s, rest);
      WaitIncreases(leq, reqs, s, path[0], path[1]);
    }
  }

  /** The wait-for relation has no cycle in any reachable state. */
  lemma NoWaitCycle(leq: (Id, Id) -> bool, db: Database, reqs: seq<Request>, schedule: seq<nat>, path: seq<nat>)
    requires TotalPreorder(leq) && Antisymmetric(leq)
    requires WaitPath(Run(Start(leq, db, reqs), schedule), path)
    ensures path[0] != path[|path| - 1]
  {
    var s := Run(Start(leq, db, reqs), schedule);
    ConcurrentIsSerial(leq, db, reqs, schedule);
    assert WaitsFor(s, path[0], path[1]);
    if path[0] == path[|path| - 1] {
      PathIncreases(leq, reqs, s, path);
    }
  }

  /** Some transaction can run whenever some transaction is unfinished. */
  ghost predicate Live(s: State) {
    (exists i :: Unfinished(s, i)) ==> exists i :: CanStep(s, i)
  }

  lemma {:induction false} LargestAwaited(leq: (Id, Id) -> bool, s: State, n: nat, i: nat) returns (m: nat)
    requires TotalPreorder(leq) && i < n <= |s.txns| && Blocked(s, i)
    ensures m < n && Blocked(s, m)
    ensures forall j :: 0 <= j < n && Blocked(s, j) ==> leq(Awaited(s, j), Awaited(s, m))
  {
    if exists j :: 0 <= j < n - 1 && Blocked(s, j) {
      var j :| 0 <= j < n - 1 && Blocked(s, j);
      m := LargestAwaited(leq, s, n - 1, j);
      if Blocked(s, n - 1) && leq(Awaited(s, m), Awaited(s, n - 1)) {
        m := n - 1;
      }
    } else {
      m := i;
    }
  }

  lemma ReachableLive(leq: (Id, Id) -> bool, db: Database, reqs: seq<Request>, schedule: seq<nat>)
    requires TotalPreorder(leq) && Antisymmetric(leq)
    ensures Live(Run(Start(leq, db, reqs), schedule))
  {
    var s := Run(Start(leq, db, reqs), schedule);
    ConcurrentIsSerial(leq, db, reqs, schedule);
    if i :| Unfinished(s, i) {
      if Blocked(s, i) {
        var m := LargestAwaited(leq, s, |s.txns|, i);
        var j := s.locks[Awaited(s, m)];
        assert WaitsFor(s, m, j);
        if Blocked(s, j) {
          WaitIncreases(leq, reqs, s, m, j);
        }
        assert CanStep(s, j);
      } else {
        assert CanStep(s, i);
      }
    }
  }

  /** Two distinct ids that collate as equal: each transaction locks its own owner first. */
  lemma TiedIdsDeadlock(leq: (Id, Id) -> bool, a: Id, b: Id, row: Account)
    requires a != b && leq(a, b) && leq(b, a)
    ensures var db := Database(map[a := row, b := row], map[], [], {});
      var reqs := [Ban(a, b, 0, "spam"), Ban(b, a, 0, "spam")];
      !Live(Run(Start(leq, db, reqs), [0, 1]))
  {
    var db := Database(map[a := row, b := row], map[], [], {});
    var reqs := [Ban(a, b, 0, "spam"), Ban(b, a, 0, "spam")];
    var s0 := Start(leq, db, reqs);
    assert [0, 1][..1] == [0] && [0][..0] == [];
    assert Run(s0, []) == s0;
    assert s0.txns[0].todo == [a, b] && s0.txns[1].todo == [b, a];
    var s1 := Run(s0, [0]);
    assert CanStep(s0, 0) && s1 == Lock(s0, 0);
    var s2 := Run(s0, [0, 1]);
    assert CanStep(s1, 1) && s2 == Lock(s1, 1);
    assert Unfinished(s2, 0) && Blocked(s2, 0) && Blocked(s2, 1);
  }

  /** Sorting prevents deadlock for all requests exactly when distinct ids never collate as equal. */
  lemma DeadlockFreeIffStrict(leq: (Id, Id) -> bool)
    requires TotalPreorder(leq)
    ensures (forall db, reqs, schedule :: Live(Run(Start(leq, db, reqs), schedule))) <==> Antisymmetric(leq)
  {
    if Antisymmetric(leq) {
      forall db, reqs, schedule ensures Live(Run(Start(leq, db, reqs), schedule)) {
        ReachableLive(leq, db, reqs, schedule);
      }
    } else {
      var a, b :| leq(a, b) && leq(b, a) && a != b;
      TiedIdsDeadlock(leq, a, b, Account(Active, true, true, Some(0), None, None, 0));
    }
  }

  // ---- Termination --------------------------------------------------------

  /** Steps left: one per lock still to take and one to finish. */
  function Left(t: Txn): nat {
    if t.outcome.None? then |t.todo| + 1 else 0
  }

  function Remaining(txns: seq<Txn>): nat {
    if txns == [] then
      0
    else
      Remaining(txns[..|txns| - 1]) + Left(txns[|txns| - 1])
  }

  lemma {:induction false} RemainingUpdate(txns: seq<Txn>, i: nat, t: Txn)
    requires i < |txns|
    ensures Remaining(txns[i := t]) - Left(t) == Remaining(txns) - Left(txns[i])
  {
    var n := |txns| - 1;
    if i == n {
      assert txns[i := t][..n] == txns[..n];
    } else {
      assert txns[i := t][..n] == txns[..n][i := t];
      RemainingUpdate(txns[..n], i, t);
    }
  }

  lemma StepUsesOne(s: State, i: nat)
    requires CanStep(s, i)
    ensures Remaining(Step(s, i).txns) == Remaining(s.txns) - 1
  {
    RemainingUpdate(s.txns, i, Step(s, i).txns[i]);
    assert Step(s, i).txns == s.txns[i := Step(s, i).txns[i]];
  }

  /** Scheduler picks that made a transaction move. */
  function Moves(s: State, schedule: seq<nat>): nat {
    if schedule == [] then
      0
    else
      var shorter, i := schedule[..|schedule| - 1], schedule[|schedule| - 1];
      Moves(s, shorter) + if CanStep(Run(s, shorter), i) then 1 else 0
  }

  lemma {:induction false} MovesAccounted(s: State, schedule: seq<nat>)
    ensures Moves(s, schedule) + Remaining(Run(s, schedule).txns) == Remaining(s.txns)
  {
    if schedule != [] {
      var shorter, i := schedule[..|schedule| - 1], schedule[|schedule| - 1];
      MovesAccounted(s, shorter);
      if CanStep(Run(s, shorter), i) {
        StepUsesOne(Run(s, shorter), i);
      }
    }
  }

  lemma {:induction false} RemainingAtMost(txns: seq<Txn>)
    requires forall i :: 0 <= i < |txns| ==> |txns[i].todo| <= 2
    ensures Remaining(txns) <= 3 * |txns|
  {
    if txns != [] {
      RemainingAtMost(txns[..|txns| - 1]);
    }
  }

  /** No schedule moves more than three times per request, and one that can move no further has finished them all. */
  lemma EveryScheduleEnds(leq: (Id, Id) -> bool, db: Database, reqs: seq<Request>, schedule: seq<nat>)
    requires TotalPreorder(leq) && Antisymmetric(leq)
    ensures Moves(Start(leq, db, reqs), schedule) <= 3 * |reqs|
    ensures var s := Run(Start(leq, db, reqs), schedule);
      (forall i :: !CanStep(s, i)) ==>
        && |s.txns| == |reqs|
        && (forall i :: 0 <= i < |reqs| ==> s.txns[i].outcome.Some? && i in s.commits)
        && (forall j, k :: 0 <= j < k < |s.commits| ==> s.commits[j] != s.commits[k])
  {
    var s0 := Start(leq, db, reqs);
    var s := Run(s0, schedule);
    ConcurrentIsSerial(leq, db, reqs, schedule);
    ReachableLive(leq, db, reqs, schedule);
    MovesAccounted(s0, schedule);
    RemainingAtMost(s0.txns);
    forall i | 0 <= i < |reqs| && s.txns[i].outcome.None? ensures exists j :: CanStep(s, j) {
      assert Unfinished(s, i);
    }
  }

  // ---- The routes ---------------------------------------------------------

  /** One ban or unban request run against the tables, statement by statement. */
  class ModerationStore {
    var accounts: map<Id, Account>
    var sessions: map<Id, Session>
    var audits: seq<Audit>
    const activatable: set<Id>

    constructor (db: Database)
      ensures Contents() == db
    {
      accounts, sessions, audits, activatable := db.accounts, db.sessions, db.audits, db.activatable;
    }

    function Contents(): Database
      reads this
    {
      Database(accounts, sessions, audits, activatable)
    }

    method LockOwnerAndTarget(leq: (Id, Id) -> bool, owner: Id, target: Id) returns (r: Located)
      ensures r == Locate(Seen(accounts, [owner, target]), owner, target)
    {
      var orderedIds := OrderedIds(leq, owner, target);
      var lockedById: map<Id, Account> := map[];
      for k := 0 to |orderedIds|
        invariant lockedById == Seen(accounts, orderedIds[..k])
      {
        var id := orderedIds[k];
        if id in accounts {
          lockedById := lockedById[id := accounts[id]];
        }
      }
      assert orderedIds[..|orderedIds|] == orderedIds;
      assert forall id :: id in orderedIds <==> id == owner || id == target;
      assert lockedById == Seen(accounts, [owner, target]);
      if owner !in lockedById || !lockedById[owner].isOwner || lockedById[owner].status != Active {
        return LacksOwner;
      }
      if target !in lockedById {
        return LacksTarget;
      }
      return Both(lockedById[owner], lockedById[target]);
    }

    method BanAccount(leq: (Id, Id) -> bool, owner: Id, targetId: Id, at: Time, reason: string) returns (r: Outcome)
      modifies this
      ensures (Contents(), r) == Exec(old(Contents()), Ban(owner, targetId, at, reason))
    {
      var locked := LockOwnerAndTarget(leq, owner, targetId);
      match locked {
        case LacksOwner => return NotOwner;
        case LacksTarget => return Missing;
        case Both(_, target) =>
          if targetId == owner {
            return BanSelf;
          }
          if target.isOwner {
            return BanOwner;
          }
          if target.status != Active {
            return Done(target, false);
          }
          var suspended := Transition(Contents(), targetId, Suspended, at);
          if suspended.Err? {
            return Aborted(suspended.error);
          }
          if exists k <- sessions :: Revocable(sessions[k], targetId) && at < sessions[k].createdAt {
            return Aborted(SessionCheck);
          }
          accounts := accounts[targetId := suspended.value];
          sessions := RevokeAll(sessions, targetId, at);
          audits := audits + [AccountSuspended(owner, targetId, at, reason)];
          return Done(suspended.value, true);
      }
    }

    method UnbanAccount(leq: (Id, Id) -> bool, owner: Id, targetId: Id, at: Time) returns (r: Outcome)
      modifies this
      ensures (Contents(), r) == Exec(old(Contents()), Unban(owner, targetId, at))
    {
      var locked := LockOwnerAndTarget(leq, owner, targetId);
      match locked {
        case LacksOwner => return NotOwner;
        case LacksTarget => return Missing;
        case Both(_, target) =>
          if target.status != Suspended {
            return Done(target, false);
          }
          var reactivated := Transition(Contents(), targetId, Active, at);
          if reactivated.Err? {
            return Aborted(reactivated.error);
          }
          accounts := accounts[targetId := reactivated.value];
          audits := audits + [AccountActivated(owner, targetId, at)];
          return Done(reactivated.value, true);
      }
    }
  }
}
