/**
 Everything that changes the award table, as interleaved steps: queueing (in two steps, under
 its own lock), user deletion, the flush's write-backs, chain repair and the two-step purge
 (linux/raofflineproxy/proxy_service.py, pending_awards.py and flusher.py). Queueing and flushing
 hold different locks, and deletion none, so every order of these steps can happen.
 */
module AwardProtocol {
  import opened Bytes
  import opened AwardChain
  import opened AwardTable

  /** A queueing that has read its predecessor but not stored its award yet. */
  datatype Request = Request(achievementId: int, queryString: string, requestBody: string, prevHash: string)

  /** `held` are all copies anyone has read or repaired, `queued` the achievements ever queued,
      `reasons` why a status became final. `lives` counts how often an achievement was queued, and
      `ends` are the final statuses written in each of those lives. */
  datatype State = State(
    table: Table,
    held: set<Award>,
    queueing: Option<Request>,
    purging: bool,
    queued: set<int>,
    reasons: set<(int, Status)>,
    lives: map<int, nat>,
    ends: set<(int, nat, Status)>)

  datatype FlushOutcome =
    | Sent
    | AuthError(message: string)
    | NetworkError(message: string)
    | Hardcore
    | Absent(message: string)

  datatype Action =
    | QueueBegin(achievementId: int, queryString: string, requestBody: string, alreadyUnlocked: bool)
    | QueueCommit(now: int, signedAt: int, userAgent: string)
    | ReadAwards
    | RepairAwards(repaired: seq<Award>)
    | WriteRepaired(copy: Award)
    | FlushWrite(copy: Award, outcome: FlushOutcome)
    | UserDelete(copy: Award)
    | PurgeCheck
    | PurgeDelete

  const HARDCORE_ERROR := "Hardcore award cannot be flushed because hardcore mode is not supported"

  /** A flushed copy as it is written back. */
  function AfterOutcome(a: Award, outcome: FlushOutcome): Award {
    match outcome
    case Sent => a.(status := Flushed, lastError := None)
    case AuthError(message) => a.(status := Pending, lastError := Some(message))
    case NetworkError(message) => a.(retryCount := a.retryCount + 1, status := Pending, lastError := Some(message))
    case Hardcore => a.(status := Stale, lastError := Some(HARDCORE_ERROR))
    case Absent(message) => a.(status := Stale, lastError := Some(message))
  }

  function Lives(st: State, achievementId: int): nat {
    if achievementId in st.lives then st.lives[achievementId] else 0
  }

  /** What ends the present life of the achievement when `a` is written. */
  function EndsAfter(st: State, a: Award): set<(int, nat, Status)> {
    if a.status == Pending then st.ends else st.ends + {(a.achievementId, Lives(st, a.achievementId), a.status)}
  }

  function LatestHash(rows: seq<Award>): string {
    if rows == [] then GENESIS else HashOrGenesis(rows[|rows| - 1])
  }

  function NewAward(s: Signer, r: Request, now: int, signedAt: int, userAgent: string): Award {
    var hash := s.hash(r.achievementId, r.queryString, r.requestBody, now);
    Award(0, r.achievementId, r.queryString, r.requestBody, userAgent, now, 0, None, Pending,
          hash, r.prevHash, s.sign(hash, r.prevHash), signedAt)
  }

  ghost predicate Enabled(s: Signer, st: State, action: Action) {
    match action
    case QueueBegin(_, _, _, _) => st.queueing.None?
    case QueueCommit(_, _, _) => st.queueing.Some?
    case ReadAwards => true
    case RepairAwards(repaired) => Repaired(s, st.table.rows, repaired)
    case WriteRepaired(copy) => copy in st.held
    case FlushWrite(copy, _) => copy in st.held && copy.status == Pending
    case UserDelete(copy) => copy in st.held
    case PurgeCheck => true
    case PurgeDelete => st.purging
  }

  /** One step; a step that is not enabled changes nothing. */
  ghost function Next(s: Signer, st: State, action: Action): State {
    if !Enabled(s, st, action) then st
    else
      match action
      case QueueBegin(achievementId, queryString, requestBody, alreadyUnlocked) =>
        if achievementId > 0 && (IndexOf(st.table.rows, achievementId).Some? || alreadyUnlocked) then st
        else st.(queueing := Some(Request(achievementId, queryString, requestBody, LatestHash(st.table.rows))))
      case QueueCommit(now, signedAt, userAgent) =>
        var r := st.queueing.value;
        st.(table := Upsert(st.table, NewAward(s, r, now, signedAt, userAgent)),
            queueing := None,
            queued := if r.achievementId == WARNING_ACHIEVEMENT_ID then st.queued else st.queued + {r.achievementId},
            lives := st.lives[r.achievementId := Lives(st, r.achievementId) + 1])
      case ReadAwards => st.(held := st.held + (set a <- st.table.rows))
      case RepairAwards(repaired) => st.(held := st.held + (set a <- repaired))
      case WriteRepaired(copy) => st.(table := Upsert(st.table, copy), ends := EndsAfter(st, copy))
      case FlushWrite(copy, outcome) =>
        var a := AfterOutcome(copy, outcome);
        st.(table := Upsert(st.table, a),
            reasons := if a.status == Pending then st.reasons else st.reasons + {(a.achievementId, a.status)},
            ends := EndsAfter(st, a))
      case UserDelete(copy) =>
        st.(table := Upsert(st.table, copy.(status := Deleted)),
            reasons := st.reasons + {(copy.achievementId, Deleted)},
            ends := EndsAfter(st, copy.(status := Deleted)))
      case PurgeCheck => st.(purging := !AnyPending(st.table.rows))
      case PurgeDelete => st.(table := st.table.(rows := KeepPending(st.table.rows)), purging := false)
  }

  ghost function Run(s: Signer, st: State, actions: seq<Action>): State
    decreases |actions|
  {
    if actions == [] then st else Run(s, Next(s, st, actions[0]), actions[1..])
  }

  // Any interleaving.

  /** A final status has a reason on record. */
  predicate Explained(st: State, a: Award) {
    a.status != Pending ==> (a.achievementId, a.status) in st.reasons
  }

  ghost predicate InTable(st: State, achievementId: int) {
    exists a <- st.table.rows :: a.achievementId == achievementId
  }

  /** A queued achievement is still in the table or was ended for a reason. */
  ghost predicate Accounted(st: State, achievementId: int) {
    InTable(st, achievementId) || exists status :: status != Pending && (achievementId, status) in st.reasons
  }

  ghost predicate Inv(s: Signer, st: State) {
    && ValidTable(st.table)
    && (forall a <- st.table.rows :: SelfConsistent(s, a) && Explained(st, a))
    && (forall a <- st.held :: SelfConsistent(s, a) && Explained(st, a))
    && (forall q <- st.queued :: Accounted(st, q))
  }

  /** The empty table, before anything happened. */
  const START := State(Table([], 1), {}, None, false, {}, {}, map[], {})

  lemma StartInv(s: Signer)
    ensures Inv(s, START)
  {
  }

  lemma StatusKeepsConsistency(s: Signer, a: Award, b: Award)
    requires SelfConsistent(s, a)
    requires b == a.(id := b.id, retryCount := b.retryCount, lastError := b.lastError, status := b.status)
    ensures SelfConsistent(s, b)
  {
  }

  /** Storing a consistent, explained row keeps the invariant. */
  lemma StoringKeepsInv(s: Signer, st: State, a: Award, reasons: set<(int, Status)>)
    requires Inv(s, st) && SelfConsistent(s, a)
    requires st.reasons <= reasons && (a.status != Pending ==> (a.achievementId, a.status) in reasons)
    ensures Inv(s, st.(table := Upsert(st.table, a), reasons := reasons))
    ensures a.achievementId != WARNING_ACHIEVEMENT_ID ==> InTable(st.(table := Upsert(st.table, a)), a.achievementId)
  {
    hide ValidTable, Upsert;
    UpsertRows(st.table, a);
    var to := st.(table := Upsert(st.table, a), reasons := reasons);
    forall b | b in to.table.rows
      ensures SelfConsistent(s, b) && Explained(to, b)
    {
      if b !in st.table.rows {
        StatusKeepsConsistency(s, a, b);
      }
    }
    forall q | q in st.queued
      ensures Accounted(to, q)
    {
      assert Accounted(st, q);
      if InTable(st, q) && q != a.achievementId {
        var b :| b in st.table.rows && b.achievementId == q;
        assert a.achievementId != WARNING_ACHIEVEMENT_ID ==> b in to.table.rows;
      }
    }
  }

  lemma RepairedCopiesKeepInv(s: Signer, st: State, repaired: seq<Award>)
    requires Inv(s, st) && Repaired(s, st.table.rows, repaired)
    ensures forall b <- repaired :: SelfConsistent(s, b) && Explained(st, b)
  {
    forall b | b in repaired
      ensures SelfConsistent(s, b) && Explained(st, b)
    {
      var i :| 0 <= i < |repaired| && repaired[i] == b;
      assert st.table.rows[i] in st.table.rows;
    }
  }

  lemma PurgeKeepsInv(s: Signer, st: State)
    requires Inv(s, st)
    ensures Inv(s, st.(table := st.table.(rows := KeepPending(st.table.rows)), purging := false))
  {
    var rows := KeepPending(st.table.rows);
    KeepPendingKeepsOrder(st.table.rows);
    var to := st.(table := st.table.(rows := rows), purging := false);
    forall i | 0 <= i < |rows|
      ensures rows[i].id < to.table.nextId && rows[i].achievementId != WARNING_ACHIEVEMENT_ID
    {
      assert rows[i] in st.table.rows;
    }
    forall q | q in st.queued
      ensures Accounted(to, q)
    {
      assert Accounted(st, q);
      if InTable(st, q) {
        var a :| a in st.table.rows && a.achievementId == q;
        assert a.status == Pending ==> a in rows;
        assert a.status != Pending ==> (q, a.status) in to.reasons;
      }
    }
  }

  lemma NextInv(s: Signer, st: State, action: Action)
    requires Inv(s, st)
    ensures Inv(s, Next(s, st, action))
  {
    hide ValidTable, Upsert, SelfConsistent, Repaired;
    if Enabled(s, st, action) {
      match action
      case QueueBegin(_, _, _, _) =>
      case QueueCommit(now, signedAt, userAgent) =>
        var r := st.queueing.value;
        var a := NewAward(s, r, now, signedAt, userAgent);
        NewAwardConsistent(s, r, now, signedAt, userAgent);
        StoringKeepsInv(s, st, a, st.reasons);
        var to := Next(s, st, action);
        assert r.achievementId != WARNING_ACHIEVEMENT_ID ==> InTable(to, r.achievementId);
        assert forall q <- st.queued :: Accounted(st.(table := Upsert(st.table, a)), q) ==> Accounted(to, q);
      case ReadAwards =>
      case RepairAwards(repaired) =>
        RepairedCopiesKeepInv(s, st, repaired);
      case WriteRepaired(copy) =>
        StoringKeepsInv(s, st, copy, st.reasons);
      case FlushWrite(copy, outcome) =>
        var a := AfterOutcome(copy, outcome);
        StatusKeepsConsistency(s, copy, a);
        StoringKeepsInv(s, st, a, Next(s, st, action).reasons);
      case UserDelete(copy) =>
        StatusKeepsConsistency(s, copy, copy.(status := Deleted));
        StoringKeepsInv(s, st, copy.(status := Deleted), Next(s, st, action).reasons);
      case PurgeCheck =>
      case PurgeDelete =>
        PurgeKeepsInv(s, st);
    }
  }

  lemma NewAwardConsistent(s: Signer, r: Request, now: int, signedAt: int, userAgent: string)
    ensures SelfConsistent(s, NewAward(s, r, now, signedAt, userAgent))
  {
  }

  lemma {:induction false} RunInv(s: Signer, st: State, actions: seq<Action>)
    requires Inv(s, st)
    ensures Inv(s, Run(s, st, actions))
    decreases |actions|
  {
    if actions != [] {
      NextInv(s, st, actions[0]);
      RunInv(s, Next(s, st, actions[0]), actions[1..]);
    }
  }

  /** Whatever happened, every row agrees with itself: only links can be broken, and repairing
      them cannot fail. */
  lemma EveryRunIsRepairable(s: Signer, actions: seq<Action>)
    ensures var rows := Run(s, START, actions).table.rows;
      && AllSelfConsistent(s, rows) && PayloadsMatch(s, rows)
      && forall i :: 0 <= i < |rows| && FaultAt(s, rows, i).Some? ==> FaultAt(s, rows, i).value == LinkBroken
  {
    StartInv(s);
    RunInv(s, START, actions);
    var rows := Run(s, START, actions).table.rows;
    assert forall i :: 0 <= i < |rows| ==> rows[i] in rows;
  }

  // Each queueing of an achievement by itself.

  /** The `life`th queueing was ended by a final status written during that life, which is on record. */
  ghost predicate EndedLife(st: State, achievementId: int, life: nat) {
    exists status ::
      status != Pending && (achievementId, life, status) in st.ends && (achievementId, status) in st.reasons
  }

  /** The `life`th queueing is the one in the table, or it was ended. */
  ghost predicate LifeAccounted(st: State, achievementId: int, life: nat) {
    (life == Lives(st, achievementId) && InTable(st, achievementId)) || EndedLife(st, achievementId, life)
  }

  /** Of awards with a real achievement id: each life is accounted for, a row with a final status was
      ended in this life, and a queueing under way found the last life ended. */
  ghost predicate LifeInv(st: State) {
    && (forall id: int, life: nat :: RealId(id) && 1 <= life <= Lives(st, id) ==> LifeAccounted(st, id, life))
    && (forall a <- st.table.rows ::
          a.status != Pending ==> (a.achievementId, Lives(st, a.achievementId), a.status) in st.ends)
    && (forall id, life, status :: (id, life, status) in st.ends ==> (id, status) in st.reasons)
    && (st.queueing.Some? && RealId(st.queueing.value.achievementId) ==>
          var id := st.queueing.value.achievementId;
          Lives(st, id) == 0 || EndedLife(st, id, Lives(st, id)))
  }

  predicate RealId(achievementId: int) {
    achievementId > 0 && achievementId != WARNING_ACHIEVEMENT_ID
  }

  /** Writing back a copy keeps every life accounted for. */
  lemma WritingKeepsLives(s: Signer, st: State, a: Award, to: State)
    requires Inv(s, st) && LifeInv(st)
    requires st.reasons <= to.reasons && (a.status != Pending ==> (a.achievementId, a.status) in to.reasons)
    requires to.table == Upsert(st.table, a) && to.ends == EndsAfter(st, a)
    requires to.lives == st.lives && to.queueing == st.queueing
    ensures LifeInv(to)
  {
    hide ValidTable, Upsert, SelfConsistent;
    UpsertRows(st.table, a);
    forall id: int, life: nat | RealId(id) && 1 <= life <= Lives(to, id)
      ensures LifeAccounted(to, id, life)
    {
      assert LifeAccounted(st, id, life);
      if InTable(st, id) && id != a.achievementId {
        var b :| b in st.table.rows && b.achievementId == id;
        assert a.achievementId != WARNING_ACHIEVEMENT_ID ==> b in to.table.rows;
      }
    }
  }

  lemma CommitKeepsLives(s: Signer, st: State, now: int, signedAt: int, userAgent: string)
    requires Inv(s, st) && LifeInv(st) && st.queueing.Some?
    ensures LifeInv(Next(s, st, QueueCommit(now, signedAt, userAgent)))
  {
    hide ValidTable, Upsert, SelfConsistent;
    var r, to := st.queueing.value, Next(s, st, QueueCommit(now, signedAt, userAgent));
    var a := NewAward(s, r, now, signedAt, userAgent);
    UpsertRows(st.table, a);
    if a.achievementId != WARNING_ACHIEVEMENT_ID {
      UpsertMembers(st.table, a);
    } else {
      NothingUpserted(st.table, a);
    }
    forall b <- st.table.rows
      ensures b.achievementId != WARNING_ACHIEVEMENT_ID
    {
      NoWarningRow(st.table, b);
    }
    forall id: int, life: nat | RealId(id) && 1 <= life <= Lives(to, id)
      ensures LifeAccounted(to, id, life)
    {
      if life <= Lives(st, id) {
        assert LifeAccounted(st, id, life);
        if InTable(st, id) && id != a.achievementId {
          var b :| b in st.table.rows && b.achievementId == id;
          assert a.achievementId != WARNING_ACHIEVEMENT_ID ==> b in to.table.rows;
        }
      }
    }
  }

  lemma PurgeKeepsLives(s: Signer, st: State)
    requires Inv(s, st) && LifeInv(st)
    ensures LifeInv(Next(s, st, PurgeDelete))
  {
    hide ValidTable, SelfConsistent;
    var to := Next(s, st, PurgeDelete);
    forall id: int, life: nat | RealId(id) && 1 <= life <= Lives(to, id)
      ensures LifeAccounted(to, id, life)
    {
      assert LifeAccounted(st, id, life);
      if InTable(st, id) && !InTable(to, id) {
        var b :| b in st.table.rows && b.achievementId == id;
        assert b.status != Pending;
      }
    }
  }

  lemma NextLifeInv(s: Signer, st: State, action: Action)
    requires Inv(s, st) && LifeInv(st)
    ensures LifeInv(Next(s, st, action))
  {
    hide ValidTable, Upsert, SelfConsistent, Repaired;
    if Enabled(s, st, action) {
      match action
      case QueueBegin(achievementId, _, _, _) =>
        AbsentIsEnded(st, achievementId);
        SameLives(st, Next(s, st, action));
      case QueueCommit(now, signedAt, userAgent) => CommitKeepsLives(s, st, now, signedAt, userAgent);
      case WriteRepaired(copy) => WritingKeepsLives(s, st, copy, Next(s, st, action));
      case FlushWrite(copy, outcome) => WritingKeepsLives(s, st, AfterOutcome(copy, outcome), Next(s, st, action));
      case UserDelete(copy) => WritingKeepsLives(s, st, copy.(status := Deleted), Next(s, st, action));
      case PurgeDelete => PurgeKeepsLives(s, st);
      case _ => SameLives(st, Next(s, st, action));
    }
  }

  /** Copies, purge checks and queueings that begin touch no life. */
  lemma SameLives(st: State, to: State)
    requires LifeInv(st) && to == st.(held := to.held, purging := to.purging, queueing := to.queueing)
    requires to.queueing.Some? && RealId(to.queueing.value.achievementId) ==>
      var id := to.queueing.value.achievementId;
      Lives(st, id) == 0 || EndedLife(st, id, Lives(st, id))
    ensures LifeInv(to)
  {
    forall id: int, life: nat | RealId(id) && 1 <= life <= Lives(to, id)
      ensures LifeAccounted(to, id, life)
    {
      assert LifeAccounted(st, id, life);
    }
  }

  /** An achievement without a row has no life that is not ended. */
  lemma AbsentIsEnded(st: State, achievementId: int)
    requires LifeInv(st)
    ensures RealId(achievementId) && IndexOf(st.table.rows, achievementId).None? ==>
      Lives(st, achievementId) == 0 || EndedLife(st, achievementId, Lives(st, achievementId))
  {
    if RealId(achievementId) && Lives(st, achievementId) > 0 {
      assert LifeAccounted(st, achievementId, Lives(st, achievementId));
    }
  }

  lemma {:induction false} RunLifeInv(s: Signer, st: State, actions: seq<Action>)
    requires Inv(s, st) && LifeInv(st)
    ensures LifeInv(Run(s, st, actions))
    decreases |actions|
  {
    hide Inv, LifeInv, Next;
    if actions != [] {
      NextInv(s, st, actions[0]);
      NextLifeInv(s, st, actions[0]);
      RunLifeInv(s, Next(s, st, actions[0]), actions[1..]);
    }
  }

  /**
   Whatever happened, a queued award is still stored, or it was sent, deleted by the user, hardcore or
   gone from the live data. Of a real achievement that was queued several times this holds for each
   queueing by itself: only the last can be stored, and a final status counts for the life in which
   it was written.
   */
  lemma NoAwardLost(s: Signer, actions: seq<Action>, achievementId: int)
    requires achievementId in Run(s, START, actions).queued
    ensures var st := Run(s, START, actions);
      && Accounted(st, achievementId)
      && (RealId(achievementId) ==>
            forall life: nat :: 1 <= life <= Lives(st, achievementId) ==> LifeAccounted(st, achievementId, life))
  {
    hide Next;
    StartInv(s);
    RunInv(s, START, actions);
    StartLifeInv();
    RunLifeInv(s, START, actions);
  }

  lemma StartLifeInv()
    ensures LifeInv(START)
  {
  }

  /** A row only ever leaves the table by a purge, and then with a final status on record. */
  lemma RowsLeaveByPurge(s: Signer, st: State, action: Action, a: Award)
    requires Inv(s, st) && a in st.table.rows && !InTable(Next(s, st, action), a.achievementId)
    ensures action.PurgeDelete? && a.status != Pending && (a.achievementId, a.status) in st.reasons
  {
    hide ValidTable, Upsert, SelfConsistent, Repaired;
    var to := Next(s, st, action);
    var stored :=
      match action
      case QueueCommit(now, signedAt, userAgent) =>
        if st.queueing.Some? then NewAward(s, st.queueing.value, now, signedAt, userAgent) else a
      case WriteRepaired(copy) => copy
      case FlushWrite(copy, outcome) => AfterOutcome(copy, outcome)
      case UserDelete(copy) => copy.(status := Deleted)
      case _ => a;
    UpsertRows(st.table, stored);
  }

  ghost predicate PendingInTable(st: State, achievementId: int) {
    exists a <- st.table.rows :: a.achievementId == achievementId && a.status == Pending
  }

  /** A success, a deletion, a stale award, or a copy written back of one that was already ended. */
  predicate Ends(action: Action, achievementId: int) {
    match action
    case FlushWrite(copy, outcome) =>
      copy.achievementId == achievementId && !outcome.AuthError? && !outcome.NetworkError?
    case UserDelete(copy) => copy.achievementId == achievementId
    case WriteRepaired(copy) => copy.achievementId == achievementId && copy.status != Pending
    case _ => false
  }

  lemma StepKeepsPending(s: Signer, st: State, action: Action, achievementId: int)
    requires Inv(s, st) && PendingInTable(st, achievementId) && !Ends(action, achievementId)
    ensures PendingInTable(Next(s, st, action), achievementId)
  {
    hide ValidTable, Upsert, SelfConsistent, Repaired;
    var a :| a in st.table.rows && a.achievementId == achievementId && a.status == Pending;
    NoWarningRow(st.table, a);
    var stored :=
      match action
      case QueueCommit(now, signedAt, userAgent) =>
        if st.queueing.Some? then NewAward(s, st.queueing.value, now, signedAt, userAgent) else a
      case WriteRepaired(copy) => copy
      case FlushWrite(copy, outcome) => AfterOutcome(copy, outcome)
      case UserDelete(copy) => copy.(status := Deleted)
      case _ => a;
    UpsertRows(st.table, stored);
  }

  lemma NoWarningRow(t: Table, a: Award)
    requires ValidTable(t) && a in t.rows
    ensures a.achievementId != WARNING_ACHIEVEMENT_ID
  {
  }

  /** However many sends fail and whatever else happens, an award nobody ends stays pending. */
  lemma {:induction false} ErrorsKeepPending(s: Signer, st: State, actions: seq<Action>, achievementId: int)
    requires Inv(s, st) && PendingInTable(st, achievementId)
    requires forall i :: 0 <= i < |actions| ==> !Ends(actions[i], achievementId)
    ensures PendingInTable(Run(s, st, actions), achievementId)
    decreases |actions|
  {
    hide Inv, Next, PendingInTable, Ends;
    if actions != [] {
      NextInv(s, st, actions[0]);
      StepKeepsPending(s, st, actions[0], achievementId);
      ErrorsKeepPending(s, Next(s, st, actions[0]), actions[1..], achievementId);
    }
  }

  // Runs in which the chain stays valid without repair.

  /** No pending award stands behind a processed one. */
  predicate PendingFirst(rows: seq<Award>) {
    forall i, j :: 0 <= i < j < |rows| && rows[j].status.Pending? ==> rows[i].status.Pending?
  }

  /** A queueing under way that will store a row. */
  predicate WillStore(st: State) {
    st.queueing.Some? && st.queueing.value.achievementId != WARNING_ACHIEVEMENT_ID
  }

  /** What a purge can look up before it deletes: nothing pending stands behind what it will delete,
      and no queueing has read its predecessor while there is something to delete. */
  predicate PurgeIsSafe(st: State) {
    && PendingFirst(st.table.rows)
    && (WillStore(st) ==> forall i :: 0 <= i < |st.table.rows| ==> st.table.rows[i].status.Pending?)
  }

  /** A clock that does not go back, writing back only current rows, and deleting only when that is
      safe; otherwise every order of steps. */
  ghost predicate Guarded(s: Signer, st: State, action: Action) {
    match action
    case QueueBegin(achievementId, _, _, _) => achievementId > 0
    case QueueCommit(now, _, _) => forall a <- st.table.rows :: a.queuedAt <= now
    case ReadAwards => true
    case RepairAwards(_) => !ChainValid(s, st.table.rows)
    case WriteRepaired(copy) => copy in st.table.rows
    case FlushWrite(copy, _) => copy in st.table.rows
    case UserDelete(copy) => copy in st.table.rows
    case PurgeCheck => true
    case PurgeDelete => PurgeIsSafe(st)
  }

  ghost predicate GuardedRun(s: Signer, st: State, actions: seq<Action>)
    decreases |actions|
  {
    actions != [] ==> Guarded(s, st, actions[0]) && GuardedRun(s, Next(s, st, actions[0]), actions[1..])
  }

  predicate AllHashed(rows: seq<Award>) {
    forall i :: 0 <= i < |rows| ==> Hashed(rows[i])
  }

  ghost predicate ChainInv(s: Signer, st: State) {
    && ValidTable(st.table)
    && ChainValid(s, st.table.rows)
    && AllHashed(st.table.rows)
    && (WillStore(st) ==>
          && st.queueing.value.prevHash == LatestHash(st.table.rows)
          && IndexOf(st.table.rows, st.queueing.value.achievementId).None?)
  }

  /** Only unsigned fields differ. */
  predicate SameSigned(a: Award, b: Award) {
    b == a.(retryCount := b.retryCount, lastError := b.lastError, status := b.status)
  }

  lemma StatusInPlace(s: Signer, st: State, a: Award, b: Award)
    requires ChainInv(s, st) && a in st.table.rows && SameSigned(a, b)
    ensures ChainInv(s, st.(table := Upsert(st.table, b)))
  {
    hide SelfConsistent, ChainValid, ValidTable, Upsert, LatestHash;
    var rows := st.table.rows;
    var i :| 0 <= i < |rows| && rows[i] == a;
    UpsertRows(st.table, b);
    UpsertInPlace(st.table, i, b);
    var to := rows[i := b];
    assert Upsert(st.table, b).rows == to;
    SameSignedKeepsChain(s, rows, to);
    SameSignedKeepsKeys(rows, to, if st.queueing.Some? then st.queueing.value.achievementId else 0);
  }

  lemma SameSignedKeepsChain(s: Signer, rows: seq<Award>, to: seq<Award>)
    requires ChainValid(s, rows) && |to| == |rows| && forall j :: 0 <= j < |rows| ==> SameSigned(rows[j], to[j])
    ensures ChainValid(s, to) && LatestHash(to) == LatestHash(rows)
  {
    hide PayloadHash;
    forall j | 0 <= j < |to|
      ensures SelfConsistent(s, to[j]) && Linked(to, j)
    {
      SameSignedKeepsHash(s, rows[j], to[j]);
      assert SelfConsistent(s, rows[j]) && Linked(rows, j);
    }
  }

  lemma SameSignedKeepsHash(s: Signer, a: Award, b: Award)
    requires SameSigned(a, b)
    ensures PayloadHash(s, b) == PayloadHash(s, a)
  {
  }

  lemma SameSignedKeepsKeys(rows: seq<Award>, to: seq<Award>, achievementId: int)
    requires |to| == |rows| && forall j :: 0 <= j < |rows| ==> SameSigned(rows[j], to[j])
    ensures IndexOf(rows, achievementId).None? <==> IndexOf(to, achievementId).None?
  {
    match IndexOf(to, achievementId) {
      case Some(j) => assert rows[j].achievementId == achievementId;
      case None =>
    }
  }

  lemma AppendKeepsChain(s: Signer, st: State, now: int, signedAt: int, userAgent: string)
    requires ChainInv(s, st) && st.queueing.Some? && forall a <- st.table.rows :: a.queuedAt <= now
    ensures ChainInv(s, Next(s, st, QueueCommit(now, signedAt, userAgent)))
  {
    hide ValidTable, SelfConsistent, PayloadHash, ChainValid;
    var a := NewAward(s, st.queueing.value, now, signedAt, userAgent);
    UpsertRows(st.table, a);
    if a.achievementId != WARNING_ACHIEVEMENT_ID {
      UpsertAtEnd(st.table, a);
      NewAwardConsistent(s, st.queueing.value, now, signedAt, userAgent);
      StatusKeepsConsistency(s, a, a.(id := st.table.nextId));
      AppendRow(s, st.table.rows, a.(id := st.table.nextId));
    }
  }

  /** Of rows with the pending ones first, those up to `k` are pending. */
  lemma {:induction false} PendingPrefix(rows: seq<Award>) returns (k: nat)
    requires PendingFirst(rows)
    ensures k <= |rows| && forall i :: 0 <= i < |rows| ==> (rows[i].status.Pending? <==> i < k)
  {
    k := |rows|;
    if rows != [] && !rows[|rows| - 1].status.Pending? {
      var front := rows[..|rows| - 1];
      assert forall i :: 0 <= i < |front| ==> front[i] == rows[i];
      k := PendingPrefix(front);
    }
  }

  lemma KeptStep(rows: seq<Award>)
    ensures rows == [] ==> KeepPending(rows) == []
    ensures rows != [] ==>
      var last := |rows| - 1;
      KeepPending(rows) == KeepPending(rows[..last]) + if rows[last].status.Pending? then [rows[last]] else []
  {
  }

  lemma {:induction false} KeptIsPrefix(rows: seq<Award>, k: nat)
    requires k <= |rows| && forall i :: 0 <= i < |rows| ==> (rows[i].status.Pending? <==> i < k)
    ensures KeepPending(rows) == rows[..k]
  {
    KeptStep(rows);
    hide KeepPending;
    if rows != [] {
      var last := |rows| - 1;
      var front := rows[..last];
      assert forall i :: 0 <= i < last ==> front[i] == rows[i];
      if k == |rows| {
        KeptIsPrefix(front, last);
        assert front[..last] == front;
        assert front + [rows[last]] == rows == rows[..k];
      } else {
        KeptIsPrefix(front, k);
        assert front[..k] == rows[..k];
        assert !rows[last].status.Pending?;
      }
    }
  }

  lemma PrefixIsChain(s: Signer, rows: seq<Award>, k: nat)
    requires ChainValid(s, rows) && k <= |rows|
    ensures ChainValid(s, rows[..k])
  {
    hide SelfConsistent, HashOrGenesis;
    forall i | 0 <= i < k
      ensures SelfConsistent(s, rows[..k][i]) && Linked(rows[..k], i)
    {
      assert Linked(rows, i);
    }
  }

  lemma SafePurgeKeepsChain(s: Signer, st: State)
    requires ChainInv(s, st) && PurgeIsSafe(st)
    ensures ChainInv(s, st.(table := st.table.(rows := KeepPending(st.table.rows)), purging := false))
  {
    hide ChainValid, SelfConsistent;
    var rows := st.table.rows;
    var k := PendingPrefix(rows);
    KeptIsPrefix(rows, k);
    PrefixIsChain(s, rows, k);
    KeepPendingKeepsOrder(rows);
    if WillStore(st) {
      assert rows[..k] == rows;
    }
  }

  lemma GuardedStep(s: Signer, st: State, action: Action)
    requires ChainInv(s, st) && Guarded(s, st, action)
    ensures ChainInv(s, Next(s, st, action))
  {
    hide ValidTable, Upsert, ChainValid;
    if Enabled(s, st, action) {
      match action
      case QueueBegin(_, _, _, _) =>
      case QueueCommit(now, signedAt, userAgent) => AppendKeepsChain(s, st, now, signedAt, userAgent);
      case ReadAwards =>
      case RepairAwards(_) =>
      case WriteRepaired(copy) => StatusInPlace(s, st, copy, copy);
      case FlushWrite(copy, outcome) => StatusInPlace(s, st, copy, AfterOutcome(copy, outcome));
      case UserDelete(copy) => StatusInPlace(s, st, copy, copy.(status := Deleted));
      case PurgeCheck =>
      case PurgeDelete => SafePurgeKeepsChain(s, st);
    }
  }

  lemma StartChainInv(s: Signer)
    ensures ChainInv(s, START)
  {
  }

  lemma {:induction false} GuardedRunInv(s: Signer, st: State, actions: seq<Action>)
    requires ChainInv(s, st) && GuardedRun(s, st, actions)
    ensures ChainInv(s, Run(s, st, actions))
    decreases |actions|
  {
    hide ChainInv, Guarded, Next;
    if actions != [] {
      GuardedStep(s, st, actions[0]);
      GuardedRunInv(s, Next(s, st, actions[0]), actions[1..]);
    }
  }

  /** Queueing may overlap a purge: as long as deletes are safe the chain always verifies as it is. */
  lemma GuardedRunsVerify(s: Signer, actions: seq<Action>)
    requires GuardedRun(s, START, actions)
    ensures ChainValid(s, Run(s, START, actions).table.rows)
  {
    StartChainInv(s);
    GuardedRunInv(s, START, actions);
  }

  // When a delete is safe, exactly.

  /** What SHA-256 is used for: no two rows have the same hash, and none is the word for no hash. */
  predicate HashesDiffer(rows: seq<Award>) {
    && (forall i, j :: 0 <= i < j < |rows| ==> rows[i].payloadHash != rows[j].payloadHash)
    && (forall i :: 0 <= i < |rows| ==> rows[i].payloadHash != GENESIS)
  }

  /** A pending row right behind a processed one. */
  lemma {:induction false} FindGap(rows: seq<Award>) returns (m: nat)
    requires !PendingFirst(rows)
    ensures 0 < m < |rows| && rows[m].status.Pending? && !rows[m - 1].status.Pending?
  {
    var last := |rows| - 1;
    if rows[last].status.Pending? && !rows[last - 1].status.Pending? {
      m := last;
    } else {
      var front := rows[..last];
      assert forall i :: 0 <= i < last ==> front[i] == rows[i];
      m := FindGap(front);
    }
  }

  lemma {:induction false} KeptAt(rows: seq<Award>, m: nat)
    requires m < |rows| && rows[m].status.Pending?
    ensures var kept, p := KeepPending(rows), |KeepPending(rows[..m])|;
      p < |kept| && kept[p] == rows[m] && kept[..p] == KeepPending(rows[..m])
  {
    KeptStep(rows);
    hide KeepPending;
    var front := rows[..|rows| - 1];
    if m < |front| {
      KeptAt(front, m);
      assert front[..m] == rows[..m];
    }
  }

  /** The hash of the last pending row before `m` is not that of a processed row at `m - 1`. */
  lemma OtherHash(rows: seq<Award>, m: nat)
    requires AllHashed(rows) && HashesDiffer(rows) && 0 < m < |rows| && !rows[m - 1].status.Pending?
    ensures LatestHash(KeepPending(rows[..m])) != rows[m - 1].payloadHash
  {
    var kept := KeepPending(rows[..m]);
    if kept != [] {
      var a := kept[|kept| - 1];
      assert a in kept;
      var q :| 0 <= q < m && rows[..m][q] == a;
      assert rows[q] == a && q != m - 1;
    }
  }

  lemma GapBreaksChain(s: Signer, rows: seq<Award>)
    requires ChainValid(s, rows) && AllHashed(rows) && HashesDiffer(rows) && !PendingFirst(rows)
    ensures !ChainValid(s, KeepPending(rows))
  {
    var m := FindGap(rows);
    KeptAt(rows, m);
    OtherHash(rows, m);
    assert Linked(rows, m) && rows[m].prevHash == rows[m - 1].payloadHash;
    hide SelfConsistent, PendingFirst, AllHashed, HashesDiffer, KeepPending;
    var kept, p := KeepPending(rows), |KeepPending(rows[..m])|;
    assert ExpectedPrev(kept, p) == LatestHash(kept[..p]);
    assert !Linked(kept, p);
  }

  /** The rows verify, and still will once the queueing under way has stored its award. */
  ghost predicate StaysLinked(s: Signer, st: State) {
    && ChainValid(s, st.table.rows)
    && forall now, signedAt, userAgent ::
         WillStore(st) && (forall a <- st.table.rows :: a.queuedAt <= now) ==>
           ChainValid(s, Next(s, st, QueueCommit(now, signedAt, userAgent)).table.rows)
  }

  lemma StaleLinkBreaksChain(s: Signer, st: State, now: int, signedAt: int, userAgent: string)
    requires ValidTable(st.table) && WillStore(st) && IndexOf(st.table.rows, st.queueing.value.achievementId).None?
    requires forall a <- st.table.rows :: a.queuedAt <= now
    requires st.queueing.value.prevHash != LatestHash(st.table.rows)
    ensures !ChainValid(s, Next(s, st, QueueCommit(now, signedAt, userAgent)).table.rows)
  {
    hide ValidTable, SelfConsistent, PayloadHash, Upsert;
    var a := NewAward(s, st.queueing.value, now, signedAt, userAgent);
    UpsertAtEnd(st.table, a);
    var rows := Next(s, st, QueueCommit(now, signedAt, userAgent)).table.rows;
    assert rows == st.table.rows + [a.(id := st.table.nextId)];
    assert !Linked(rows, |st.table.rows|);
  }

  lemma LastIsLatest(rows: seq<Award>)
    requires rows != [] && Ordered(rows)
    ensures forall i :: 0 <= i < |rows| ==> rows[i].queuedAt <= rows[|rows| - 1].queuedAt
  {
  }

  /** A queueing that read a predecessor which is then deleted. */
  lemma DeletedPredecessorBreaksChain(s: Signer, st: State)
    requires ChainInv(s, st) && st.purging && HashesDiffer(st.table.rows) && WillStore(st)
    requires PendingFirst(st.table.rows) && !PurgeIsSafe(st)
    ensures !StaysLinked(s, Next(s, st, PurgeDelete))
  {
    hide ChainValid, Next, HashesDiffer, LatestHash, KeepPending, StaysLinked, Ordered, DistinctKeys, AllHashed;
    var rows := st.table.rows;
    var k := PendingPrefix(rows);
    KeptIsPrefix(rows, k);
    PurgeDeletes(s, st);
    OtherLatest(rows, k);
    KeepPendingKeepsOrder(rows);
    ShorterBreaksChain(s, Next(s, st, PurgeDelete), rows, k);
  }

  lemma ShorterBreaksChain(s: Signer, to: State, rows: seq<Award>, k: nat)
    requires ValidTable(to.table) && k < |rows| && to.table.rows == rows[..k] && Ordered(rows) && WillStore(to)
    requires IndexOf(rows, to.queueing.value.achievementId).None?
    requires to.queueing.value.prevHash == LatestHash(rows) != LatestHash(rows[..k])
    ensures !StaysLinked(s, to)
  {
    LastIsLatest(rows);
    hide ChainValid, Ordered, Next, LatestHash, IndexOf, SelfConsistent, PayloadHash, Before;
    assert forall i :: 0 <= i < k ==> to.table.rows[i] == rows[i];
    StaleLinkBreaksChain(s, to, rows[|rows| - 1].queuedAt, 0, "");
  }

  lemma OtherLatest(rows: seq<Award>, k: nat)
    requires AllHashed(rows) && HashesDiffer(rows) && k < |rows|
    ensures LatestHash(rows[..k]) != LatestHash(rows)
  {
  }

  lemma PurgeDeletes(s: Signer, st: State)
    requires st.purging
    ensures Next(s, st, PurgeDelete) == st.(table := st.table.(rows := KeepPending(st.table.rows)), purging := false)
  {
  }

  lemma PurgeExactly(s: Signer, st: State)
    requires ChainInv(s, st) && st.purging && HashesDiffer(st.table.rows)
    ensures StaysLinked(s, Next(s, st, PurgeDelete)) <==> PurgeIsSafe(st)
  {
    hide ChainValid, ValidTable, Upsert;
    var to := Next(s, st, PurgeDelete);
    if PurgeIsSafe(st) {
      SafePurgeKeepsChain(s, st);
      forall now, signedAt, userAgent | WillStore(to) && forall a <- to.table.rows :: a.queuedAt <= now
        ensures ChainValid(s, Next(s, to, QueueCommit(now, signedAt, userAgent)).table.rows)
      {
        AppendKeepsChain(s, to, now, signedAt, userAgent);
      }
    } else if PendingFirst(st.table.rows) {
      DeletedPredecessorBreaksChain(s, st);
    } else {
      GapBreaksChain(s, st.table.rows);
    }
  }

  /** Whenever a purge may delete, the chain goes on verifying exactly if the delete is safe. */
  lemma PurgeKeepsLinksExactly(s: Signer, actions: seq<Action>)
    requires GuardedRun(s, START, actions)
    requires Run(s, START, actions).purging && HashesDiffer(Run(s, START, actions).table.rows)
    ensures var st := Run(s, START, actions);
      StaysLinked(s, Next(s, st, PurgeDelete)) <==> PurgeIsSafe(st)
  {
    StartChainInv(s);
    GuardedRunInv(s, START, actions);
    PurgeExactly(s, Run(s, START, actions));
  }

  /** What can happen between a purge's check and its delete: no flush writes then. */
  predicate DuringPurge(action: Action) {
    !action.FlushWrite? && !action.PurgeDelete?
  }

  /** The first `n` rows are there and processed. */
  predicate Processed(rows: seq<Award>, n: nat) {
    n <= |rows| && forall i :: 0 <= i < n ==> !rows[i].status.Pending?
  }

  lemma StepKeepsProcessed(s: Signer, st: State, action: Action, n: nat)
    requires ChainInv(s, st) && Guarded(s, st, action) && DuringPurge(action) && Processed(st.table.rows, n)
    ensures Processed(Next(s, st, action).table.rows, n)
  {
    hide ChainValid, ValidTable, Upsert, AllHashed;
    if Enabled(s, st, action) {
      match action
      case QueueCommit(now, signedAt, userAgent) =>
        if WillStore(st) {
          UpsertAtEnd(st.table, NewAward(s, st.queueing.value, now, signedAt, userAgent));
        } else {
          NothingUpserted(st.table, NewAward(s, st.queueing.value, now, signedAt, userAgent));
        }
      case WriteRepaired(copy) =>
        var i :| 0 <= i < |st.table.rows| && st.table.rows[i] == copy;
        UpsertInPlace(st.table, i, copy);
      case UserDelete(copy) =>
        var i :| 0 <= i < |st.table.rows| && st.table.rows[i] == copy;
        UpsertInPlace(st.table, i, copy.(status := Deleted));
      case _ =>
    }
  }

  lemma {:induction false} RunKeepsProcessed(s: Signer, st: State, actions: seq<Action>, n: nat)
    requires ChainInv(s, st) && GuardedRun(s, st, actions) && Processed(st.table.rows, n)
    requires forall i :: 0 <= i < |actions| ==> DuringPurge(actions[i])
    ensures Processed(Run(s, st, actions).table.rows, n)
    decreases |actions|
  {
    hide ChainInv, Guarded, Next, Processed, DuringPurge;
    if actions != [] {
      GuardedStep(s, st, actions[0]);
      StepKeepsProcessed(s, st, actions[0], n);
      RunKeepsProcessed(s, Next(s, st, actions[0]), actions[1..], n);
    }
  }

  /** The first `n` rows are processed and all others pending. */
  predicate PendingFrom(rows: seq<Award>, n: nat) {
    n <= |rows| && forall i :: 0 <= i < |rows| ==> (rows[i].status.Pending? <==> i >= n)
  }

  lemma StepKeepsPendingFrom(s: Signer, st: State, action: Action, n: nat)
    requires ChainInv(s, st) && Guarded(s, st, action) && DuringPurge(action) && !action.UserDelete?
    requires PendingFrom(st.table.rows, n)
    ensures PendingFrom(Next(s, st, action).table.rows, n)
  {
    hide ChainValid, ValidTable, Upsert, AllHashed;
    if Enabled(s, st, action) {
      match action
      case QueueCommit(now, signedAt, userAgent) =>
        if WillStore(st) {
          UpsertAtEnd(st.table, NewAward(s, st.queueing.value, now, signedAt, userAgent));
        } else {
          NothingUpserted(st.table, NewAward(s, st.queueing.value, now, signedAt, userAgent));
        }
      case WriteRepaired(copy) =>
        var i :| 0 <= i < |st.table.rows| && st.table.rows[i] == copy;
        UpsertInPlace(st.table, i, copy);
      case _ =>
    }
  }

  lemma {:induction false} RunKeepsPendingFrom(s: Signer, st: State, actions: seq<Action>, n: nat)
    requires ChainInv(s, st) && GuardedRun(s, st, actions) && PendingFrom(st.table.rows, n)
    requires forall i :: 0 <= i < |actions| ==> DuringPurge(actions[i]) && !actions[i].UserDelete?
    ensures PendingFrom(Run(s, st, actions).table.rows, n)
    decreases |actions|
  {
    hide ChainInv, Guarded, Next, PendingFrom, DuringPurge;
    if actions != [] {
      GuardedStep(s, st, actions[0]);
      StepKeepsPendingFrom(s, st, actions[0], n);
      RunKeepsPendingFrom(s, Next(s, st, actions[0]), actions[1..], n);
    }
  }

  /**
   Queueing into a purge, when the user deletes nothing meanwhile: the delete is safe exactly if nothing
   was there at the check, or nothing is pending and no queueing will store when it deletes.
   */
  lemma OverlapGuard(s: Signer, before: seq<Action>, between: seq<Action>)
    requires GuardedRun(s, START, before) && !AnyPending(Run(s, START, before).table.rows)
    requires GuardedRun(s, Run(s, START, before), between)
    requires forall i :: 0 <= i < |between| ==> DuringPurge(between[i]) && !between[i].UserDelete?
    ensures var checked, st := Run(s, START, before).table.rows, Run(s, Run(s, START, before), between);
      && (PendingFirst(st.table.rows) <==> checked == [] || !AnyPending(st.table.rows))
      && (PurgeIsSafe(st) <==> checked == [] || (!AnyPending(st.table.rows) && !WillStore(st)))
  {
    hide Guarded, Next, Run, ChainInv, PendingFirst, AnyPending, PendingFrom, PurgeIsSafe, WillStore;
    var st := Run(s, START, before);
    StartChainInv(s);
    GuardedRunInv(s, START, before);
    NoneLeft(st.table.rows);
    RunKeepsPendingFrom(s, st, between, |st.table.rows|);
    PendingFromGuard(Run(s, st, between), |st.table.rows|);
  }

  lemma PendingFromGuard(st: State, n: nat)
    requires PendingFrom(st.table.rows, n)
    ensures PendingFirst(st.table.rows) <==> n == 0 || !AnyPending(st.table.rows)
    ensures PurgeIsSafe(st) <==> n == 0 || (!AnyPending(st.table.rows) && !WillStore(st))
  {
    var rows := st.table.rows;
    assert forall i :: 0 <= i < |rows| ==> rows[i] in rows;
    if n > 0 {
      FirstProcessed(rows);
    }
  }

  /** Whatever else happens meanwhile, user deletions included, behind rows that were there at the check
      nothing may be pending and no queueing may be about to store. */
  lemma OverlapWithDeletions(s: Signer, before: seq<Action>, between: seq<Action>)
    requires GuardedRun(s, START, before) && !AnyPending(Run(s, START, before).table.rows)
    requires Run(s, START, before).table.rows != []
    requires GuardedRun(s, Run(s, START, before), between)
    requires forall i :: 0 <= i < |between| ==> DuringPurge(between[i])
    ensures var st := Run(s, Run(s, START, before), between);
      && (PendingFirst(st.table.rows) <==> !AnyPending(st.table.rows))
      && (PurgeIsSafe(st) <==> !AnyPending(st.table.rows) && !WillStore(st))
  {
    hide Guarded, Next, Run, ChainInv, PendingFirst, AnyPending, Processed, PurgeIsSafe, WillStore;
    var st := Run(s, START, before);
    StartChainInv(s);
    GuardedRunInv(s, START, before);
    NoneLeft(st.table.rows);
    RunKeepsProcessed(s, st, between, |st.table.rows|);
    ProcessedGuard(Run(s, st, between), |st.table.rows|);
  }

  lemma NoneLeft(rows: seq<Award>)
    requires !AnyPending(rows)
    ensures Processed(rows, |rows|) && PendingFrom(rows, |rows|)
  {
    assert forall i :: 0 <= i < |rows| ==> rows[i] in rows;
  }

  lemma ProcessedGuard(st: State, n: nat)
    requires Processed(st.table.rows, n) && n > 0
    ensures PendingFirst(st.table.rows) <==> !AnyPending(st.table.rows)
    ensures PurgeIsSafe(st) <==> !AnyPending(st.table.rows) && !WillStore(st)
  {
    var rows := st.table.rows;
    FirstProcessed(rows);
    assert forall i :: 0 <= i < |rows| ==> rows[i] in rows;
  }

  lemma FirstProcessed(rows: seq<Award>)
    requires rows != [] && !rows[0].status.Pending?
    ensures PendingFirst(rows) ==> !AnyPending(rows)
  {
  }

  // One lock around queueing and purging makes every delete safe.

  /** What one lock around queueing and purging, a clock that does not go back and writing back
      only current rows would guarantee. */
  ghost predicate Disciplined(s: Signer, st: State, action: Action) {
    match action
    case QueueBegin(achievementId, _, _, _) => achievementId > 0 && !st.purging
    case QueueCommit(now, _, _) => forall a <- st.table.rows :: a.queuedAt <= now
    case ReadAwards => true
    case RepairAwards(_) => !ChainValid(s, st.table.rows)
    case WriteRepaired(copy) => copy in st.table.rows
    case FlushWrite(copy, _) => copy in st.table.rows && !st.purging
    case UserDelete(copy) => copy in st.table.rows
    case PurgeCheck => st.queueing.None?
    case PurgeDelete => true
  }

  ghost predicate DisciplinedRun(s: Signer, st: State, actions: seq<Action>)
    decreases |actions|
  {
    actions != [] ==> Disciplined(s, st, actions[0]) && DisciplinedRun(s, Next(s, st, actions[0]), actions[1..])
  }

  /** Between a check and its delete nothing is pending and nobody queues. */
  ghost predicate PurgeInv(st: State) {
    st.purging ==> !AnyPending(st.table.rows) && st.queueing.None?
  }

  lemma DisciplinedStepIsGuarded(s: Signer, st: State, action: Action)
    requires ChainInv(s, st) && PurgeInv(st) && Disciplined(s, st, action)
    ensures (action.PurgeDelete? ==> st.purging) ==> Guarded(s, st, action)
    ensures PurgeInv(Next(s, st, action))
  {
    hide ChainValid, Upsert;
    if Enabled(s, st, action) {
      match action
      case WriteRepaired(copy) => UpsertRows(st.table, copy);
      case UserDelete(copy) => UpsertRows(st.table, copy.(status := Deleted));
      case _ =>
    }
  }

  lemma {:induction false} DisciplinedRunInv(s: Signer, st: State, actions: seq<Action>)
    requires ChainInv(s, st) && PurgeInv(st) && DisciplinedRun(s, st, actions)
    ensures ChainInv(s, Run(s, st, actions))
    decreases |actions|
  {
    hide ChainInv, PurgeInv, Disciplined, Guarded, Next;
    if actions != [] {
      DisciplinedStepIsGuarded(s, st, actions[0]);
      if actions[0].PurgeDelete? && !st.purging {
        NotEnabled(s, st);
      } else {
        GuardedStep(s, st, actions[0]);
      }
      DisciplinedRunInv(s, Next(s, st, actions[0]), actions[1..]);
    }
  }

  lemma NotEnabled(s: Signer, st: State)
    requires !st.purging
    ensures Next(s, st, PurgeDelete) == st
  {
  }

  /** Then the chain always verifies as it is. */
  lemma DisciplinedRunsVerify(s: Signer, actions: seq<Action>)
    requires DisciplinedRun(s, START, actions)
    ensures ChainValid(s, Run(s, START, actions).table.rows)
  {
    StartChainInv(s);
    DisciplinedRunInv(s, START, actions);
  }

  // The locks of the source allow an unsafe delete.

  const REQUEST_PATH := "/dorequest.php"
  const FIRST_BODY := "a=1"
  const SECOND_BODY := "a=2"

  /** An award queued between the purge's check and its delete names a deleted predecessor. */
  function OverlappingRun(first: Award): seq<Action> {
    [QueueBegin(1, REQUEST_PATH, FIRST_BODY, false), QueueCommit(10, 10, ""), ReadAwards, UserDelete(first), PurgeCheck,
     QueueBegin(2, REQUEST_PATH, SECOND_BODY, false), QueueCommit(20, 20, ""), PurgeDelete]
  }

  function FirstAward(s: Signer): Award {
    NewAward(s, Request(1, REQUEST_PATH, FIRST_BODY, GENESIS), 10, 10, "").(id := 1)
  }

  function SecondAward(s: Signer): Award {
    NewAward(s, Request(2, REQUEST_PATH, SECOND_BODY, FirstAward(s).payloadHash), 20, 20, "").(id := 2)
  }

  function OverlapChecked(s: Signer): State {
    State(Table([FirstAward(s).(status := Deleted)], 2), {FirstAward(s)}, None, true, {1}, {(1, Deleted)},
          map[1 := 1], {(1, 1, Deleted)})
  }

  /** The first award is queued and deleted, and the purge has checked. */
  lemma OverlapPurgeChecked(s: Signer)
    ensures var a := OverlappingRun(FirstAward(s));
      Run(s, START, a[..5]) == OverlapChecked(s)
  {
    hide SelfConsistent, HashOrGenesis;
    var first, actions := FirstAward(s), OverlappingRun(FirstAward(s));
    var s1 := Next(s, START, actions[0]);
    var s2 := Next(s, s1, actions[1]);
    assert s2.table == Table([first], 2);
    var s3 := Next(s, s2, actions[2]);
    assert s3.held == {first};
    var s4 := Next(s, s3, actions[3]);
    assert Without([first], 0) == [];
    assert s4.table == Table([first.(status := Deleted)], 2);
    var s5 := Next(s, s4, actions[4]);
    RunFrom(s, START, actions[..5], [START, s1, s2, s3, s4, s5]);
  }

  /** The second is queued behind it, and the delete takes only the first. */
  lemma OverlapSecondQueued(s: Signer, st: State)
    requires st == OverlapChecked(s)
    ensures Run(s, st, OverlappingRun(FirstAward(s))[5..]).table == Table([SecondAward(s)], 3)
  {
    hide SelfConsistent;
    var deleted, second, actions :=
      FirstAward(s).(status := Deleted), SecondAward(s), OverlappingRun(FirstAward(s))[5..];
    var s1 := Next(s, st, actions[0]);
    var s2 := Next(s, s1, actions[1]);
    assert s2.table == Table([deleted, second], 3);
    var s3 := Next(s, s2, actions[2]);
    assert [deleted, second][..1] == [deleted];
    assert KeepPending([deleted]) == [];
    RunFrom(s, st, actions, [st, s1, s2, s3]);
  }

  lemma OverlapBreaksChain(s: Signer)
    requires s.hash(1, REQUEST_PATH, FIRST_BODY, 10) != GENESIS
    ensures !ChainValid(s, Run(s, START, OverlappingRun(FirstAward(s))).table.rows)
  {
    hide Next;
    var actions := OverlappingRun(FirstAward(s));
    OverlapPurgeChecked(s);
    OverlapSecondQueued(s, Run(s, START, actions[..5]));
    RunSplits(s, START, actions, 5);
    assert !Linked([SecondAward(s)], 0);
  }

  function QueueTwo(): seq<Action> {
    [QueueBegin(1, REQUEST_PATH, FIRST_BODY, false), QueueCommit(10, 10, ""),
     QueueBegin(2, REQUEST_PATH, SECOND_BODY, false), QueueCommit(20, 20, "")]
  }

  /** Two awards are queued after a check that found nothing, and the first is deleted by the user. */
  function DeletingRun(s: Signer): seq<Action> {
    QueueTwo() + [ReadAwards, UserDelete(FirstAward(s))]
  }

  /** So after a check that found nothing a deletion can still make the delete unsafe. */
  lemma DeletionMakesPurgeUnsafe(s: Signer)
    ensures var checked := Run(s, START, [PurgeCheck]);
      && GuardedRun(s, START, [PurgeCheck]) && checked.purging && checked.table.rows == []
      && GuardedRun(s, checked, DeletingRun(s))
      && !PendingFirst(Run(s, checked, DeletingRun(s)).table.rows)
  {
    var checked := Next(s, START, PurgeCheck);
    RunFrom(s, START, [PurgeCheck], [START, checked]);
    GuardedFrom(s, START, [PurgeCheck], [START, checked]);
    BothQueued(s, checked);
    hide Run, GuardedRun, Next;
    var queued := Run(s, checked, QueueTwo());
    FirstDeleted(s, queued);
    GuardedAppends(s, checked, QueueTwo(), [ReadAwards, UserDelete(FirstAward(s))]);
    var rows := Run(s, checked, DeletingRun(s)).table.rows;
    assert !rows[0].status.Pending? && rows[1].status.Pending?;
  }

  lemma BothQueued(s: Signer, st: State)
    requires st == START.(purging := true)
    ensures GuardedRun(s, st, QueueTwo())
    ensures Run(s, st, QueueTwo()).table == Table([FirstAward(s), SecondAward(s)], 3)
  {
    hide SelfConsistent, ChainValid, PurgeIsSafe;
    var a, first, second := QueueTwo(), FirstAward(s), SecondAward(s);
    var s1 := Next(s, st, a[0]);
    var s2 := Next(s, s1, a[1]);
    assert s2.table == Table([first], 2);
    var s3 := Next(s, s2, a[2]);
    var s4 := Next(s, s3, a[3]);
    assert s4.table == Table([first, second], 3);
    RunFrom(s, st, a, [st, s1, s2, s3, s4]);
    GuardedFrom(s, st, a, [st, s1, s2, s3, s4]);
  }

  lemma FirstDeleted(s: Signer, st: State)
    requires st.table == Table([FirstAward(s), SecondAward(s)], 3)
    ensures var a := [ReadAwards, UserDelete(FirstAward(s))];
      && GuardedRun(s, st, a)
      && Run(s, st, a).table.rows == [FirstAward(s).(status := Deleted), SecondAward(s)]
  {
    hide SelfConsistent, ChainValid, PurgeIsSafe;
    var first, second := FirstAward(s), SecondAward(s);
    var s1 := Next(s, st, ReadAwards);
    assert first in st.table.rows && first in s1.held;
    var s2 := Next(s, s1, UserDelete(first));
    assert Without([first, second], 0) == [second];
    assert s2.table.rows == [first.(status := Deleted), second];
    RunFrom(s, st, [ReadAwards, UserDelete(first)], [st, s1, s2]);
    GuardedFrom(s, st, [ReadAwards, UserDelete(first)], [st, s1, s2]);
  }

  lemma {:induction false} GuardedAppends(s: Signer, st: State, a: seq<Action>, b: seq<Action>)
    requires GuardedRun(s, st, a) && GuardedRun(s, Run(s, st, a), b)
    ensures GuardedRun(s, st, a + b) && Run(s, st, a + b) == Run(s, Run(s, st, a), b)
    decreases |a|
  {
    hide Next, Guarded;
    if a == [] {
      assert a + b == b;
    } else {
      assert (a + b)[0] == a[0] && (a + b)[1..] == a[1..] + b;
      GuardedAppends(s, Next(s, st, a[0]), a[1..], b);
    }
  }

  lemma {:induction false} GuardedFrom(s: Signer, st: State, actions: seq<Action>, states: seq<State>)
    requires |states| == |actions| + 1 && states[0] == st
    requires forall i :: 0 <= i < |actions| ==> states[i + 1] == Next(s, states[i], actions[i])
    requires forall i :: 0 <= i < |actions| ==> Guarded(s, states[i], actions[i])
    ensures GuardedRun(s, st, actions)
    decreases |actions|
  {
    hide Next, Guarded;
    if actions != [] {
      var rest, later := actions[1..], states[1..];
      forall i | 0 <= i < |rest|
        ensures later[i + 1] == Next(s, later[i], rest[i]) && Guarded(s, later[i], rest[i])
      {
        assert states[(i + 1) + 1] == Next(s, states[i + 1], actions[i + 1]);
      }
      GuardedFrom(s, later[0], rest, later);
    }
  }

  lemma {:induction false} RunSplits(s: Signer, st: State, actions: seq<Action>, n: nat)
    requires n <= |actions|
    ensures Run(s, st, actions) == Run(s, Run(s, st, actions[..n]), actions[n..])
    decreases n
  {
    hide Next;
    if n > 0 {
      assert actions[..n][1..] == actions[1..][..n - 1];
      RunSplits(s, Next(s, st, actions[0]), actions[1..], n - 1);
    }
  }

  lemma {:induction false} RunFrom(s: Signer, st: State, actions: seq<Action>, states: seq<State>)
    requires |states| == |actions| + 1 && states[0] == st
    requires forall i :: 0 <= i < |actions| ==> states[i + 1] == Next(s, states[i], actions[i])
    ensures Run(s, st, actions) == states[|actions|]
    decreases |actions|
  {
    hide Next;
    if actions != [] {
      var rest, later := actions[1..], states[1..];
      forall i | 0 <= i < |rest|
        ensures later[i + 1] == Next(s, later[i], rest[i])
      {
        assert states[(i + 1) + 1] == Next(s, states[i + 1], actions[i + 1]);
      }
      RunFrom(s, later[0], rest, later);
    }
  }
}
