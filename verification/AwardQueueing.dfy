/**
 What queueing an award does to the table, however it interleaves with everything else
 (`queue_award` in linux/raofflineproxy/proxy_service.py): which awards are stored, with which
 fields, and which never are.
 */
module AwardQueueing {
  import opened Bytes
  import opened AwardChain
  import opened AwardTable
  import opened AwardProtocol

  // Awards that are already unlocked.

  /** Nothing anywhere belongs to this achievement. */
  ghost predicate Unseen(st: State, achievementId: int) {
    && achievementId !in st.queued && Lives(st, achievementId) == 0
    && !InTable(st, achievementId)
    && (forall a <- st.held :: a.achievementId != achievementId)
    && (st.queueing.Some? ==> st.queueing.value.achievementId != achievementId)
  }

  /** Every queueing of the achievement finds it unlocked already. */
  predicate OnlyUnlocked(actions: seq<Action>, achievementId: int) {
    forall i :: 0 <= i < |actions| && actions[i].QueueBegin? && actions[i].achievementId == achievementId ==>
      actions[i].alreadyUnlocked
  }

  lemma RepairedUnseen(s: Signer, st: State, repaired: seq<Award>, achievementId: int)
    requires Unseen(st, achievementId) && Repaired(s, st.table.rows, repaired)
    ensures forall a <- repaired :: a.achievementId != achievementId
  {
    forall a | a in repaired
      ensures a.achievementId != achievementId
    {
      var i :| 0 <= i < |repaired| && repaired[i] == a;
      assert st.table.rows[i] in st.table.rows;
    }
  }

  lemma StepKeepsUnseen(s: Signer, st: State, action: Action, achievementId: int)
    requires Inv(s, st) && Unseen(st, achievementId) && achievementId > 0
    requires action.QueueBegin? && action.achievementId == achievementId ==> action.alreadyUnlocked
    ensures Unseen(Next(s, st, action), achievementId)
  {
    hide ValidTable, Upsert, SelfConsistent, Repaired;
    if Enabled(s, st, action) {
      match action
      case QueueCommit(now, signedAt, userAgent) =>
        UpsertRows(st.table, NewAward(s, st.queueing.value, now, signedAt, userAgent));
      case RepairAwards(repaired) => RepairedUnseen(s, st, repaired, achievementId);
      case WriteRepaired(copy) => UpsertRows(st.table, copy);
      case FlushWrite(copy, outcome) => UpsertRows(st.table, AfterOutcome(copy, outcome));
      case UserDelete(copy) => UpsertRows(st.table, copy.(status := Deleted));
      case _ =>
    }
  }

  lemma {:induction false} RunKeepsUnseen(s: Signer, st: State, actions: seq<Action>, achievementId: int)
    requires Inv(s, st) && Unseen(st, achievementId) && achievementId > 0 && OnlyUnlocked(actions, achievementId)
    ensures Unseen(Run(s, st, actions), achievementId)
    decreases |actions|
  {
    hide Inv, Next, Unseen;
    if actions != [] {
      NextInv(s, st, actions[0]);
      StepKeepsUnseen(s, st, actions[0], achievementId);
      assert OnlyUnlocked(actions[1..], achievementId) by {
        assert forall i :: 0 <= i < |actions| - 1 ==> actions[1..][i] == actions[i + 1];
      }
      RunKeepsUnseen(s, Next(s, st, actions[0]), actions[1..], achievementId);
    }
  }

  /** Whatever happens otherwise, an achievement whose queueings all found it unlocked is never
      stored, and nobody ever holds a copy of it to send. */
  lemma UnlockedIsNeverStored(s: Signer, actions: seq<Action>, achievementId: int)
    requires achievementId > 0 && OnlyUnlocked(actions, achievementId)
    ensures var st := Run(s, START, actions);
      && achievementId !in st.queued && Lives(st, achievementId) == 0
      && (forall a <- st.table.rows :: a.achievementId != achievementId)
      && (forall a <- st.held :: a.achievementId != achievementId)
      && (st.queueing.Some? ==> st.queueing.value.achievementId != achievementId)
  {
    hide Run, Inv;
    StartInv(s);
    RunKeepsUnseen(s, START, actions, achievementId);
  }

  // Awards that are stored.

  /** A queueing begins unless one is under way, or its real achievement id is stored or unlocked;
      otherwise nothing happens. */
  lemma BeginsExactly(s: Signer, st: State, id: int, queryString: string, requestBody: string, unlocked: bool)
    ensures var to := Next(s, st, QueueBegin(id, queryString, requestBody, unlocked));
      if st.queueing.None? && (id <= 0 || (!InTable(st, id) && !unlocked)) then
        && to == st.(queueing := to.queueing) && to.queueing.Some?
        && to.queueing.value.achievementId == id
        && to.queueing.value.queryString == queryString && to.queueing.value.requestBody == requestBody
      else to == st
  {
    var found := IndexOf(st.table.rows, id);
    assert found.Some? ==> st.table.rows[found.value] in st.table.rows;
  }

  predicate NoCommit(actions: seq<Action>) {
    forall i :: 0 <= i < |actions| ==> !actions[i].QueueCommit?
  }

  /** While a queueing is under way, only its own commit changes it. */
  lemma {:induction false} QueueingStays(s: Signer, st: State, actions: seq<Action>)
    requires st.queueing.Some? && NoCommit(actions)
    ensures Run(s, st, actions).queueing == st.queueing
    decreases |actions|
  {
    hide Next;
    if actions != [] {
      var to := Next(s, st, actions[0]);
      BusyStep(s, st, actions[0]);
      assert NoCommit(actions[1..]) by {
        assert forall i :: 0 <= i < |actions| - 1 ==> actions[1..][i] == actions[i + 1];
      }
      QueueingStays(s, to, actions[1..]);
    }
  }

  lemma BusyStep(s: Signer, st: State, action: Action)
    requires st.queueing.Some? && !action.QueueCommit?
    ensures Next(s, st, action).queueing == st.queueing
  {
    hide Upsert, AnyPending, KeepPending, EndsAfter, Repaired;
  }

  lemma OneRowEach(t: Table, a: Award, b: Award)
    requires ValidTable(t) && a in t.rows && b in t.rows && a.achievementId == b.achievementId
    ensures a == b
  {
    var i :| 0 <= i < |t.rows| && t.rows[i] == a;
    var j :| 0 <= j < |t.rows| && t.rows[j] == b;
  }

  /** The fields of a stored award: the request's own, no attempt made yet, hashed and signed over its
      predecessor. */
  predicate IsFresh(
      s: Signer, a: Award, id: int, queryString: string, requestBody: string, userAgent: string, now: int,
      signedAt: int, prev: string)
  {
    && a.achievementId == id && a.queryString == queryString && a.requestBody == requestBody
    && a.userAgent == userAgent && a.queuedAt == now && a.signedAt == signedAt
    && a.retryCount == 0 && a.lastError == None && a.status == Pending
    && a.payloadHash == s.hash(id, queryString, requestBody, now)
    && a.prevHash == prev && a.signature == s.sign(a.payloadHash, prev)
  }

  /**
   From any reachable state: once a queueing of an award that is neither stored nor unlocked has
   begun, its commit stores it with the request's fields, whatever everybody else did in between,
   and touches no other award. Its predecessor is the latest award of when it began.
   */
  lemma FreshIsStored(
      s: Signer, before: seq<Action>, id: int, queryString: string, requestBody: string, between: seq<Action>,
      now: int, signedAt: int, userAgent: string)
    returns (a: Award)
    requires id != 101000001 && NoCommit(between)
    requires var st := Run(s, START, before);
      st.queueing.None? && (id <= 0 || forall a <- st.table.rows :: a.achievementId != id)
    ensures var st := Run(s, START, before);
      var middle := Run(s, Next(s, st, QueueBegin(id, queryString, requestBody, false)), between);
      var end := Next(s, middle, QueueCommit(now, signedAt, userAgent));
      var rows := st.table.rows;
      && a in end.table.rows && id in end.queued && Lives(end, id) == Lives(middle, id) + 1
      && end.queueing.None?
      && IsFresh(s, a, id, queryString, requestBody, userAgent, now, signedAt,
           if rows == [] || rows[|rows| - 1].payloadHash == "" then "genesis" else rows[|rows| - 1].payloadHash)
      && (forall b <- end.table.rows :: b == a || b in middle.table.rows)
      && (forall b <- middle.table.rows :: b.achievementId != id ==> b in end.table.rows)
  {
    hide ValidTable, Upsert, Run, SelfConsistent, Repaired;
    var st := Run(s, START, before);
    StartInv(s);
    RunInv(s, START, before);
    var begin := QueueBegin(id, queryString, requestBody, false);
    BeginsExactly(s, st, id, queryString, requestBody, false);
    var begun := Next(s, st, begin);
    NextInv(s, st, begin);
    assert begun.queueing.value.prevHash == LatestHash(st.table.rows);
    QueueingStays(s, begun, between);
    RunInv(s, begun, between);
    var middle := Run(s, begun, between);
    var request := middle.queueing.value;
    var made := NewAward(s, request, now, signedAt, userAgent);
    var end := Next(s, middle, QueueCommit(now, signedAt, userAgent));
    assert end.table == Upsert(middle.table, made);
    UpsertRows(middle.table, made);
    a :| a in end.table.rows && a == made.(id := a.id);
    forall b | b in end.table.rows
      ensures b == a || b in middle.table.rows
    {
      if b == made.(id := b.id) {
        OneRowEach(end.table, a, b);
      }
    }
  }

  // Awards that end.

  /** The row that a copy of it is written back over. */
  lemma WrittenBack(t: Table, a: Award, b: Award)
    requires ValidTable(t) && a in t.rows
    requires b == a.(status := b.status, lastError := b.lastError, retryCount := b.retryCount)
    ensures b in Upsert(t, b).rows && forall c <- t.rows :: c != a ==> c in Upsert(t, b).rows
  {
    hide Insert, Place, Ordered;
    var i := IndexOf(t.rows, a.achievementId);
    OneRowEach(t, a, t.rows[i.value]);
    var p := Place(Without(t.rows, i.value), b);
    var rest := Without(t.rows, i.value);
    assert Upsert(t, b).rows == rest[..p] + [b] + rest[p..] by {
      InsertIs(rest, b);
    }
    forall c | c in t.rows && c != a
      ensures c in Upsert(t, b).rows
    {
      var j :| 0 <= j < |t.rows| && t.rows[j] == c;
      assert c == rest[if j < i.value then j else j - 1];
      assert rest == rest[..p] + rest[p..];
    }
  }

  lemma InsertIs(rows: seq<Award>, a: Award)
    ensures Insert(rows, a) == rows[..Place(rows, a)] + [a] + rows[Place(rows, a)..]
  {
  }

  /** In every reachable state a pending award can be read and flushed with any reply, or deleted by the
      user: its row then says so, with the message and the retry it stands for, and no other row changes. */
  lemma PendingCanEnd(s: Signer, before: seq<Action>, a: Award, message: string)
    requires a in Run(s, START, before).table.rows && a.status == Pending
    ensures var read := Next(s, Run(s, START, before), ReadAwards);
      && a.(status := Flushed, lastError := None) in Next(s, read, FlushWrite(a, Sent)).table.rows
      && a.(status := Stale, lastError := Some(message)) in Next(s, read, FlushWrite(a, Absent(message))).table.rows
      && a.(lastError := Some(message)) in Next(s, read, FlushWrite(a, AuthError(message))).table.rows
      && a.(lastError := Some(message), retryCount := a.retryCount + 1) in
           Next(s, read, FlushWrite(a, NetworkError(message))).table.rows
      && a.(status := Deleted) in Next(s, read, UserDelete(a)).table.rows
  {
    hide ValidTable, Upsert, Run, SelfConsistent, Repaired;
    var st := Run(s, START, before);
    StartInv(s);
    RunInv(s, START, before);
    WrittenBack(st.table, a, a.(status := Flushed, lastError := None));
    WrittenBack(st.table, a, a.(status := Stale, lastError := Some(message)));
    WrittenBack(st.table, a, a.(lastError := Some(message)));
    WrittenBack(st.table, a, a.(lastError := Some(message), retryCount := a.retryCount + 1));
    WrittenBack(st.table, a, a.(status := Deleted));
  }

  /** An undisturbed purge empties a table without pending awards and leaves any other as it is. */
  lemma PurgeEmpties(s: Signer, st: State)
    ensures var to := Next(s, Next(s, st, PurgeCheck), PurgeDelete);
      to.table.rows == if exists a <- st.table.rows :: a.status == Pending then st.table.rows else []
  {
    var kept := KeepPending(st.table.rows);
    assert kept != [] ==> kept[0] in kept;
  }
}
