/**
 One flush of the pending awards that nobody disturbs (linux/raofflineproxy/flusher.py): the
 chain is verified or repaired, every pending award is tried, and processed awards are purged.
 The server's replies, the live achievement data and the hardcore test are parameters.
 */
module Flusher {
  import opened Bytes
  import opened AwardChain
  import opened AwardTable
  import opened AwardProtocol
  import opened Decimal

  datatype Reply = Success | Rejected(message: string) | Unreachable(message: string)

  /** `known` are the achievements of the live data, `cached` those some cached game defines. */
  datatype Server = Server(
    known: set<int>,
    cached: set<int>,
    reply: Award -> Reply,
    isHardcore: Award -> bool)

  datatype FlushResult = FlushResult(
    aborted: bool,
    flushed: nat,
    total: nat,
    skippedStale: nat,
    skippedDeleted: nat,
    pendingRemaining: nat)

  function AbsentMessage(achievementId: int): string {
    var id := if achievementId < 0 then "-" + ToText(-achievementId) else ToText(achievementId);
    "Achievement " + id + " not found in live server data"
  }

  /** What a flush makes of one award. */
  function OutcomeOf(server: Server, a: Award): FlushOutcome {
    if server.isHardcore(a) then Hardcore
    else if server.known != {} && a.achievementId in server.cached && a.achievementId !in server.known then
      Absent(AbsentMessage(a.achievementId))
    else
      match server.reply(a)
      case Success => Sent
      case Rejected(message) => AuthError(message)
      case Unreachable(message) => NetworkError(message)
  }

  function FlushedAward(server: Server, a: Award): Award {
    if a.status != Pending then a else AfterOutcome(a, OutcomeOf(server, a))
  }

  /** What becomes of an award, by what the live data and the reply say about it. */
  lemma FlushedMeans(server: Server, a: Award)
    ensures var b := FlushedAward(server, a);
      var absent := server.known != {} && a.achievementId in server.cached && a.achievementId !in server.known;
      if a.status != Pending then b == a
      else if server.isHardcore(a) then
        b == a.(status := Stale,
                lastError := Some("Hardcore award cannot be flushed because hardcore mode is not supported"))
      else if absent then
        && b == a.(status := Stale, lastError := b.lastError) && b.lastError.Some?
        && (a.achievementId >= 0 ==>
              b.lastError.value == "Achievement " + ToText(a.achievementId) + " not found in live server data")
        && (a.achievementId < 0 ==>
              b.lastError.value == "Achievement " + ("-" + ToText(-a.achievementId)) + " not found in live server data")
      else
        match server.reply(a)
        case Success => b == a.(status := Flushed, lastError := None)
        case Rejected(message) => b == a.(lastError := Some(message))
        case Unreachable(message) => b == a.(lastError := Some(message), retryCount := a.retryCount + 1)
  {
    hide ToText;
  }

  predicate IsAbsent(server: Server, a: Award) {
    server.known != {} && a.achievementId in server.cached && a.achievementId !in server.known
  }

  /** A pending award that is neither hardcore nor absent and whose sending succeeds. */
  predicate IsSent(server: Server, a: Award) {
    a.status == Pending && !server.isHardcore(a) && !IsAbsent(server, a) && server.reply(a) == Success
  }

  /** A pending award that is hardcore or absent. */
  predicate IsRefused(server: Server, a: Award) {
    a.status == Pending && (server.isHardcore(a) || IsAbsent(server, a))
  }

  /** The places of those awards among the first `n`. */
  function SentPlaces(server: Server, rows: seq<Award>, n: nat): set<nat>
    requires n <= |rows|
  {
    set i: nat | i < n && IsSent(server, rows[i])
  }

  function RefusedPlaces(server: Server, rows: seq<Award>, n: nat): set<nat>
    requires n <= |rows|
  {
    set i: nat | i < n && IsRefused(server, rows[i])
  }

  lemma OneMorePlace(server: Server, rows: seq<Award>, i: nat)
    requires i < |rows|
    ensures |SentPlaces(server, rows, i + 1)|
      == |SentPlaces(server, rows, i)| + (if IsSent(server, rows[i]) then 1 else 0)
    ensures |RefusedPlaces(server, rows, i + 1)|
      == |RefusedPlaces(server, rows, i)| + (if IsRefused(server, rows[i]) then 1 else 0)
  {
    hide IsSent, IsRefused;
    var sent, refused := SentPlaces(server, rows, i), RefusedPlaces(server, rows, i);
    assert SentPlaces(server, rows, i + 1) == if IsSent(server, rows[i]) then sent + {i} else sent;
    assert RefusedPlaces(server, rows, i + 1) == if IsRefused(server, rows[i]) then refused + {i} else refused;
  }

  function FlushedRows(server: Server, rows: seq<Award>): (r: seq<Award>)
    ensures |r| == |rows|
    ensures forall i :: 0 <= i < |rows| ==> r[i] == FlushedAward(server, rows[i])
  {
    seq(|rows|, (i: nat) requires i < |rows| => FlushedAward(server, rows[i]))
  }

  function Count(rows: seq<Award>, status: Status): nat {
    if rows == [] then 0
    else Count(rows[..|rows| - 1], status) + if rows[|rows| - 1].status == status then 1 else 0
  }

  lemma {:induction false} CountsAddUp(rows: seq<Award>)
    ensures |rows| == Count(rows, Pending) + Count(rows, Deleted) + Count(rows, Stale) + Count(rows, Flushed)
  {
    if rows != [] {
      CountsAddUp(rows[..|rows| - 1]);
    }
  }

  lemma {:induction false} PendingCounted(rows: seq<Award>)
    ensures AnyPending(rows) <==> Count(rows, Pending) > 0
  {
    if rows != [] {
      var front := rows[..|rows| - 1];
      PendingCounted(front);
      assert forall a <- rows :: a in front || a == rows[|rows| - 1];
    }
  }

  /** The table after a flush: an emptied one once nothing is pending. */
  function Purged(rows: seq<Award>): seq<Award> {
    if AnyPending(rows) then rows else []
  }

  /** The start of `flush_pending_awards`: verify the chain, repair a broken link, write the
      repaired rows back. It never fails on rows that agree with themselves. */
  method PrepareChain(s: Signer, storage: Storage, clock: nat -> int) returns (ok: bool, pending: seq<Award>)
    requires storage.Valid()
    modifies storage
    ensures storage.Valid() && pending == storage.table.rows
    ensures AllSelfConsistent(s, old(storage.table.rows)) ==> ok
    ensures ok ==> ChainValid(s, pending)
    ensures ok && !ChainValid(s, old(storage.table.rows)) ==> Repaired(s, old(storage.table.rows), pending)
    ensures !ok || ChainValid(s, old(storage.table.rows)) ==> storage.table == old(storage.table)
  {
    pending := storage.GetPendingAwards();
    var verdict := VerifyChain(s, pending);
    if verdict.Valid? {
      return true, pending;
    }
    if verdict.fault != LinkBroken {
      return false, pending;
    }
    var repaired := RepairChain(s, pending, clock);
    if repaired.None? {
      return false, pending;
    }
    var again := VerifyChain(s, repaired.value);
    if !again.Valid? {
      return false, pending;
    }
    WriteBack(storage, repaired.value);
    pending := storage.GetPendingAwards();
    ok := true;
  }

  /** Stores changed copies of all rows, one by one; each stays in its place. */
  method WriteBack(storage: Storage, rows: seq<Award>)
    requires storage.Valid() && |rows| == |storage.table.rows|
    requires forall i :: 0 <= i < |rows| ==> SameButLink(storage.table.rows[i], rows[i])
    modifies storage
    ensures storage.Valid() && storage.table.rows == rows
  {
    hide ValidTable, Holds, Upsert;
    ghost var before := storage.table.rows;
    for i := 0 to |rows|
      invariant storage.Valid()
      invariant |storage.table.rows| == |rows|
      invariant forall j :: 0 <= j < i ==> storage.table.rows[j] == rows[j]
      invariant forall j :: i <= j < |rows| ==> storage.table.rows[j] == before[j]
    {
      assert SameButLink(before[i], rows[i]);
      UpsertInPlace(storage.table, i, rows[i]);
      storage.UpsertPendingAward(rows[i]);
    }
  }

  lemma NothingCounted()
    ensures forall status :: Count([], status) == 0
  {
  }

  lemma NoPlaces(server: Server, rows: seq<Award>)
    ensures SentPlaces(server, rows, 0) == {} && RefusedPlaces(server, rows, 0) == {}
  {
  }

  lemma OutcomeMeans(server: Server, a: Award)
    requires a.status == Pending
    ensures IsSent(server, a) <==> OutcomeOf(server, a).Sent?
    ensures IsRefused(server, a) <==> OutcomeOf(server, a).Hardcore? || OutcomeOf(server, a).Absent?
  {
  }

  lemma CountNext(rows: seq<Award>, i: nat, status: Status)
    requires i < |rows|
    ensures Count(rows[..i + 1], status) == Count(rows[..i], status) + if rows[i].status == status then 1 else 0
  {
    assert rows[..i + 1][..i] == rows[..i];
  }

  lemma StatusAfter(server: Server, a: Award)
    ensures a.status != Pending ==> FlushedAward(server, a) == a
    ensures a.status == Pending ==>
      var outcome := OutcomeOf(server, a);
      FlushedAward(server, a).status ==
        if outcome.Sent? then Flushed else if outcome.Hardcore? || outcome.Absent? then Stale else Pending
  {
  }

  /** Sends one pending award, or finds it hardcore or absent, and stores what came of it. */
  method TryAward(storage: Storage, server: Server, award: Award, ghost i: nat) returns (outcome: FlushOutcome)
    requires storage.Valid() && i < |storage.table.rows| && storage.table.rows[i] == award && award.status == Pending
    modifies storage
    ensures storage.Valid()
    ensures outcome == OutcomeOf(server, old(storage.table.rows[i]))
    ensures storage.table.rows == old(storage.table.rows)[i := FlushedAward(server, old(storage.table.rows[i]))]
  {
    hide ValidTable, Holds, Upsert;
    outcome := OutcomeOf(server, award);
    var updated := AfterOutcome(award, outcome);
    UpsertInPlace(storage.table, i, updated);
    storage.UpsertPendingAward(updated);
  }

  /** The source's loop over the pending awards. */
  method FlushLoop(storage: Storage, server: Server)
    returns (flushed: nat, skippedDeleted: nat, skippedStale: nat)
    requires storage.Valid()
    modifies storage
    ensures storage.Valid()
    ensures storage.table.rows == FlushedRows(server, old(storage.table.rows))
    ensures var rows := old(storage.table.rows);
      && flushed == |SentPlaces(server, rows, |rows|)|
      && skippedStale == Count(rows, Stale) + |RefusedPlaces(server, rows, |rows|)|
      && skippedDeleted == Count(rows, Deleted)
    ensures |storage.table.rows| == flushed + skippedDeleted + skippedStale
      + Count(old(storage.table.rows), Flushed) + Count(storage.table.rows, Pending)
  {
    hide ValidTable, Holds, Upsert, OutcomeOf, FlushedAward, AfterOutcome, Count, SentPlaces, RefusedPlaces, IsAbsent;
    NothingCounted();
    NoPlaces(server, storage.table.rows);
    ghost var before := storage.table.rows;
    ghost var after := FlushedRows(server, before);
    var pending := storage.GetPendingAwards();
    flushed, skippedDeleted, skippedStale := 0, 0, 0;
    for i := 0 to |pending|
      invariant storage.Valid()
      invariant |storage.table.rows| == |before|
      invariant forall j :: 0 <= j < i ==> storage.table.rows[j] == after[j]
      invariant forall j :: i <= j < |before| ==> storage.table.rows[j] == before[j]
      invariant flushed == |SentPlaces(server, before, i)|
      invariant skippedStale == Count(before[..i], Stale) + |RefusedPlaces(server, before, i)|
      invariant skippedDeleted == Count(before[..i], Deleted)
      invariant i == flushed + skippedDeleted + skippedStale + Count(before[..i], Flushed) + Count(after[..i], Pending)
    {
      CountNext(before, i, Flushed);
      CountNext(before, i, Stale);
      CountNext(before, i, Deleted);
      OneMorePlace(server, before, i);
      CountNext(after, i, Pending);
      StatusAfter(server, before[i]);
      var award := pending[i];
      match award.status {
        case Deleted =>
          skippedDeleted := skippedDeleted + 1;
        case Stale =>
          skippedStale := skippedStale + 1;
        case Flushed =>
        case Pending =>
          OutcomeMeans(server, award);
          var outcome := TryAward(storage, server, award, i);
          match outcome {
            case Sent =>
              flushed := flushed + 1;
            case Hardcore =>
              skippedStale := skippedStale + 1;
            case Absent(_) =>
              skippedStale := skippedStale + 1;
            case AuthError(_) =>
            case NetworkError(_) =>
          }
      }
    }
    assert before[..|before|] == before && after[..|after|] == after;
  }

  /** Every award of `before`, relinked where the chain was broken, was tried and the rest purged. */
  ghost predicate DealtWith(
      s: Signer, server: Option<Server>, before: seq<Award>, linked: seq<Award>, after: seq<Award>)
  {
    && (linked == before || Repaired(s, before, linked))
    && after == Purged(if server.Some? then FlushedRows(server.value, linked) else linked)
  }

  /** `flush_pending_awards`: `server` is `None` without credentials or live data. */
  method FlushPendingAwards(
      s: Signer, storage: Storage, clock: nat -> int, server: Option<Server>)
    returns (r: FlushResult, ghost linked: seq<Award>)
    requires storage.Valid()
    modifies storage
    ensures storage.Valid()
    // The chain alone never stops it.
    ensures AllSelfConsistent(s, old(storage.table.rows)) && r.aborted ==>
      server.None? && AnyPending(storage.table.rows)
    // An abort leaves every award where it is, but perhaps relinked.
    ensures r.aborted ==>
      storage.table == old(storage.table) || Repaired(s, old(storage.table.rows), storage.table.rows)
    // Otherwise every award has been dealt with.
    ensures !r.aborted ==> DealtWith(s, server, old(storage.table.rows), linked, storage.table.rows)
    // What is counted as sent, stale and deleted.
    ensures !r.aborted ==>
      && r.flushed == (if server.Some? then |SentPlaces(server.value, linked, |linked|)| else 0)
      && r.skippedStale == Count(old(storage.table.rows), Stale)
           + (if server.Some? then |RefusedPlaces(server.value, linked, |linked|)| else 0)
      && r.skippedDeleted == Count(old(storage.table.rows), Deleted)
    ensures r.aborted ==>
      r == FlushResult(true, 0, |old(storage.table.rows)|, 0, 0, |old(storage.table.rows)|)
    // Nothing gets lost in the counts.
    ensures !r.aborted ==> r.total == |old(storage.table.rows)|
    ensures !r.aborted ==> r.pendingRemaining == Count(storage.table.rows, Pending)
    ensures !r.aborted ==>
      var flushedBefore := Count(old(storage.table.rows), Flushed);
      r.total == r.flushed + r.skippedDeleted + r.skippedStale + flushedBefore + r.pendingRemaining
  {
    hide ValidTable, Holds, ChainValid, OutcomeOf, Repaired, FlushedRows, Count;
    ghost var before := storage.table.rows;
    var ok, pending := PrepareChain(s, storage, clock);
    linked := pending;
    SameCounts(s, before, linked);
    if server.Some? && !AnyPending(pending) {
      NothingToFlush(server.value, pending);
    }
    PendingCounted(pending);
    CountsAddUp(pending);
    if pending == [] {
      NothingCounted();
      assert DealtWith(s, server, before, linked, storage.table.rows);
      return FlushResult(false, 0, 0, 0, 0, 0), linked;
    }
    if !ok {
      return FlushResult(true, 0, |pending|, 0, 0, |pending|), linked;
    }
    if !AnyPending(pending) {
      var deleted, stale := Count(pending, Deleted), Count(pending, Stale);
      storage.PurgeIfSafe();
      NothingCounted();
      assert DealtWith(s, server, before, linked, storage.table.rows);
      return FlushResult(false, 0, |pending|, stale, deleted, 0), linked;
    }
    if server.None? {
      return FlushResult(true, 0, |pending|, 0, 0, |pending|), linked;
    }
    var flushed, skippedDeleted, skippedStale := FlushLoop(storage, server.value);
    ghost var rows := storage.table.rows;
    storage.PurgeIfSafe();
    PendingCounted(rows);
    NothingCounted();
    assert DealtWith(s, server, before, linked, storage.table.rows);
    var left := storage.GetPendingAwards();
    var remaining := Count(left, Pending);
    r := FlushResult(false, flushed, |pending|, skippedStale, skippedDeleted, remaining);
  }

  lemma NothingToFlush(server: Server, rows: seq<Award>)
    requires !AnyPending(rows)
    ensures FlushedRows(server, rows) == rows
    ensures SentPlaces(server, rows, |rows|) == {} && RefusedPlaces(server, rows, |rows|) == {}
  {
    forall i | 0 <= i < |rows|
      ensures FlushedAward(server, rows[i]) == rows[i]
    {
      assert rows[i] in rows;
    }
    assert forall i :: 0 <= i < |rows| ==> rows[i] in rows;
  }

  lemma SameCounts(s: Signer, rows: seq<Award>, linked: seq<Award>)
    requires linked == rows || Repaired(s, rows, linked)
    ensures |linked| == |rows| && forall status :: Count(linked, status) == Count(rows, status)
  {
    if linked != rows {
      forall status
        ensures Count(linked, status) == Count(rows, status)
      {
        SameStatusCount(rows, linked, status);
      }
    }
  }

  lemma {:induction false} SameStatusCount(rows: seq<Award>, linked: seq<Award>, status: Status)
    requires |linked| == |rows| && forall i :: 0 <= i < |rows| ==> SameButLink(rows[i], linked[i])
    ensures Count(linked, status) == Count(rows, status)
  {
    if rows != [] {
      SameStatusCount(rows[..|rows| - 1], linked[..|rows| - 1], status);
    }
  }

  /** An award that is tried and not taken: pending, neither hardcore nor absent, its reply no success. */
  predicate IsKept(server: Server, a: Award) {
    a.status == Pending && !server.isHardcore(a) && !IsAbsent(server, a) && server.reply(a) != Success
  }

  /**
   The table after a flush, by what the live data and the replies say: empty if no award is kept,
   else with every award in its place. A kept award is still pending with the message as its last
   error, and its retry count grows exactly when the server could not be reached.
   */
  lemma TableAfterFlush(s: Signer, server: Server, before: seq<Award>, linked: seq<Award>, after: seq<Award>, i: nat)
    requires DealtWith(s, Some(server), before, linked, after) && i < |before|
    ensures |linked| == |before| && SameButLink(before[i], linked[i])
    ensures after == [] <==> forall j :: 0 <= j < |linked| ==> !IsKept(server, linked[j])
    ensures after != [] ==>
      && |after| == |linked|
      && var a, b := linked[i], after[i];
         if a.status != Pending then b == a
         else if server.isHardcore(a) then b == a.(status := Stale, lastError := Some(HARDCORE_ERROR))
         else if IsAbsent(server, a) then b == a.(status := Stale, lastError := Some(AbsentMessage(a.achievementId)))
         else
           match server.reply(a)
           case Success => b == a.(status := Flushed, lastError := None)
           case Rejected(message) => b == a.(lastError := Some(message))
           case Unreachable(message) => b == a.(lastError := Some(message), retryCount := a.retryCount + 1)
  {
    hide FlushedAward, Repaired, OutcomeOf, IsKept;
    SameLength(s, before, linked, i);
    var rows := FlushedRows(server, linked);
    forall j | 0 <= j < |linked|
      ensures rows[j].status == Pending <==> IsKept(server, linked[j])
    {
      FlushedMeans(server, linked[j]);
      KeptMeans(server, linked[j]);
    }
    assert forall j :: 0 <= j < |linked| ==> rows[j] in rows;
    FlushedMeans(server, linked[i]);
  }

  lemma KeptMeans(server: Server, a: Award)
    ensures IsKept(server, a) <==> FlushedAward(server, a).status == Pending
  {
  }

  lemma SameLength(s: Signer, before: seq<Award>, linked: seq<Award>, i: nat)
    requires linked == before || Repaired(s, before, linked)
    requires i < |before|
    ensures |linked| == |before| && SameButLink(before[i], linked[i])
  {
  }
}
