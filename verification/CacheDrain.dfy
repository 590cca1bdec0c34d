/**
 Draining the cache queue (linux/raofflineproxy/rom_browser.py). What the cache holds, what the server
 answers, and when a pause is asked for or a 429 pauses are inputs, the `Environment` of a drain, and
 one clock stands for wall and monotonic time. Everything a drain does to the shared state is a step of
 `DrainSystem`, and so is what the others do meanwhile.
 */
module CacheDrain {
  import opened Bytes
  import opened CacheBudget
  import opened CacheQueue
  import opened DrainSystem
  import opened RomLookup

  datatype DrainStop = Empty | BudgetExhausted | Paused | RateLimited | Rejected | RomFailed | Busy

  /** What is reported for a row; `gameId` is 0 when no game was found. */
  datatype Report = Report(key: int, outcome: RomOutcome, gameId: int)

  datatype DrainResult = DrainResult(cached: nat, noMatch: nat, stop: DrainStop)

  // Pace.

  /** Requests after the first `BURST_GAMES` of a drain start at least `PACE_MS` after any other. */
  predicate Paced(starts: seq<int>) {
    forall i, j :: 0 <= i < j < |starts| && BURST_GAMES <= j ==> starts[j] >= starts[i] + PACE_MS
  }

  predicate NonDecreasing(starts: seq<int>) {
    forall i, j :: 0 <= i < j < |starts| ==> starts[i] <= starts[j]
  }

  lemma {:induction false} PacedSpan(starts: seq<int>, n: nat)
    requires Paced(starts) && BURST_GAMES <= n <= |starts|
    ensures starts[n - 1] >= starts[BURST_GAMES - 1] + PACE_MS * (n - BURST_GAMES)
  {
    if n > BURST_GAMES {
      PacedSpan(starts, n - 1);
    }
  }

  /** A request after `checkedAt` within the batch time leaves fewer than 119 before it. */
  lemma RoomForOneMore(starts: seq<int>, startedAt: int, checkedAt: int)
    requires Paced(starts) && NonDecreasing(starts)
    requires forall i :: 0 <= i < |starts| ==> startedAt <= starts[i]
    requires checkedAt < startedAt + BATCH_MAX_MS
    requires |starts| >= BURST_GAMES ==> checkedAt >= starts[|starts| - 1] + PACE_MS
    ensures |starts| < 119
  {
    if |starts| >= BURST_GAMES {
      PacedSpan(starts, |starts|);
    }
  }

  /** `past_burst` */
  function PastBurst(s: Shared, requested: nat): bool {
    requested >= BURST_GAMES || s.budget.Current(s.now).used >= BURST_GAMES
  }

  // Accounting of a drain over given keys.

  predicate DistinctKeys(reports: seq<Report>) {
    forall i, j :: 0 <= i < j < |reports| ==> reports[i].key != reports[j].key
  }

  function Count(reports: seq<Report>, outcome: RomOutcome): nat {
    if reports == [] then 0
    else Count(reports[..|reports| - 1], outcome) + if reports[|reports| - 1].outcome == outcome then 1 else 0
  }

  /** Every report is final for its row: the row is gone and none is reported twice. */
  predicate Accounted(reports: seq<Report>, queue: seq<QueuedRom>, mine: set<int>) {
    && DistinctKeys(reports)
    && forall r <- reports ::
         r.key in mine && Find(queue, r.key).None? && !r.outcome.Failed? && !r.outcome.AuthRejected?
  }

  lemma AddReport(reports: seq<Report>, before: seq<QueuedRom>, after: seq<QueuedRom>, mine: set<int>, r: Report)
    requires Accounted(reports, before, mine)
    requires r.key in mine && Find(before, r.key).Some? && !r.outcome.Failed? && !r.outcome.AuthRejected?
    requires after == RemoveRow(before, r.key)
    ensures Accounted(reports + [r], after, mine)
  {
    forall i | 0 <= i < |reports|
      ensures reports[i].key != r.key
    {
      assert reports[i] in reports;
    }
  }

  lemma CountNext(reports: seq<Report>, r: Report, outcome: RomOutcome)
    ensures Count(reports + [r], outcome) == Count(reports, outcome) + if r.outcome == outcome then 1 else 0
  {
    assert (reports + [r])[..|reports|] == reports;
  }

  /** A row of `mine` is as it was, or it was reported. */
  predicate KeptBut(
      reports: seq<Report>, before: seq<QueuedRom>, after: seq<QueuedRom>, mine: set<int>, except: set<int>)
  {
    forall k <- mine :: k in except || Find(after, k) == Find(before, k) || IsReported(reports, k)
  }

  predicate IsReported(reports: seq<Report>, key: int) {
    exists i :: 0 <= i < |reports| && reports[i].key == key
  }

  /** A game reported as cached was cached and charged since `first`, and reported only once; one
      reported as already cached has its patch. */
  predicate GamesMatch(reports: seq<Report>, first: Shared, s: Shared) {
    && first.cachedGames <= s.cachedGames
    && (forall i :: 0 <= i < |reports| && reports[i].outcome.Cached? ==>
          reports[i].gameId in s.cachedGames && reports[i].gameId !in first.cachedGames)
    && (forall i :: 0 <= i < |reports| && reports[i].outcome.AlreadyCached? ==> reports[i].gameId in s.patches)
    && (forall i, j :: 0 <= i < j < |reports| && reports[i].outcome.Cached? && reports[j].outcome.Cached? ==>
          reports[i].gameId != reports[j].gameId)
  }

  lemma GamesMatchLater(reports: seq<Report>, first: Shared, s: Shared, t: Shared)
    requires GamesMatch(reports, first, s) && s.cachedGames <= t.cachedGames && s.patches <= t.patches
    ensures GamesMatch(reports, first, t)
  {
  }

  lemma GamesMatchMore(reports: seq<Report>, first: Shared, s: Shared, t: Shared, r: Report)
    requires GamesMatch(reports, first, s) && s.cachedGames <= t.cachedGames && s.patches <= t.patches
    requires r.outcome.Cached? ==> r.gameId !in s.cachedGames && r.gameId in t.cachedGames
    requires r.outcome.AlreadyCached? ==> r.gameId in t.patches
    ensures GamesMatch(reports + [r], first, t)
  {
  }

  lemma KeptMore(
      reports: seq<Report>, first: seq<QueuedRom>, before: seq<QueuedRom>, after: seq<QueuedRom>, mine: set<int>,
      r: Report)
    requires KeptBut(reports, first, before, mine, {}) && after == RemoveRow(before, r.key)
    ensures KeptBut(reports + [r], first, after, mine, {})
  {
    var more := reports + [r];
    assert more[|reports|].key == r.key;
    forall k <- mine
      ensures Find(after, k) == Find(first, k) || IsReported(more, k)
    {
      if IsReported(reports, k) {
        var i :| 0 <= i < |reports| && reports[i].key == k;
        assert more[i].key == k;
      }
    }
  }

  lemma KeptLater(
      reports: seq<Report>, first: seq<QueuedRom>, before: seq<QueuedRom>, after: seq<QueuedRom>, mine: set<int>,
      except: set<int>)
    requires KeptBut(reports, first, before, mine, except) && forall k <- mine :: Find(after, k) == Find(before, k)
    ensures KeptBut(reports, first, after, mine, except)
  {
    hide IsReported;
  }

  // The drain.

  /** `cache_queued_rom`, as request `n`: only a game not known yet is cached, and then its patch is
      stored. */
  method CacheQueuedRom(
      storage: Storage, env: Environment, n: nat, key: int, used: int, round: nat, answeredAt: int,
      local: LocalAnswer, known: set<int>, mine: set<int>)
    returns (q: Request)
    requires storage.Valid() && local == AnswerOf(env.cache(round, key), answeredAt)
    modifies storage
    ensures storage.Valid() && old(storage.history) <= storage.history
    ensures storage.sys == old(storage.sys).(s := storage.sys.s) && Quiet(old(storage.sys).s, storage.sys.s, mine)
    ensures RequestMeans(env, n, q)
    ensures q.key == key && q.usedBefore == used
    ensures q.round == round && q.answeredAt == answeredAt && q.local == local && q.known == known
    ensures q.patchThere ==> q.gameId in storage.sys.s.patches
    ensures q.named.Found? && q.gameId !in known && env.fetch(n, q.gameId).Fetched? ==>
      (q.patchThere <==> q.gameId in storage.sys.s.patches)
  {
    hide RowsKept, Run, Decides, AnswerOf;
    ghost var start := storage.sys.s;
    storage.Tick(mine);
    var askedAt := storage.sys.s.now;
    var named := LookupDenied;
    if local.Game? {
      named := Found(local.gameId);
    } else {
      named := LookUp(env.hashes(n, key), askedAt);
    }
    q := Request(key, used, round, answeredAt, local, known, askedAt, named, false, Failed, 0);
    match named {
      case LookupDenied => q := q.(outcome := AuthRejected);
      case LookupFailed =>
      case NotFound => q := q.(outcome := NoMatch);
      case Found(gameId) =>
        q := q.(gameId := gameId);
        if gameId in known {
          return q.(outcome := AlreadyCached);
        }
        ghost var asked := storage.sys.s;
        storage.Tick(mine);
        QuietTransitive(start, asked, storage.sys.s, mine);
        match env.fetch(n, gameId) {
          case FetchDenied => q := q.(outcome := AuthRejected);
          case FetchFailed =>
          case Fetched(stored) =>
            if stored {
              ghost var fetched := storage.sys.s;
              storage.StorePatch(gameId);
              PatchIsQuiet(fetched, gameId, mine);
              QuietTransitive(start, fetched, storage.sys.s, mine);
            }
            if gameId in storage.sys.s.patches {
              q := q.(patchThere := true, outcome := Cached);
            }
        }
    }
  }

  lemma PatchIsQuiet(s: Shared, game: int, mine: set<int>)
    ensures Quiet(s, s.(patches := s.patches + {game}), mine)
  {
  }

  /** `next_rom`: the oldest row, or the first of the given keys that still has one. */
  method NextRom(storage: Storage, keys: Option<seq<int>>) returns (rom: Option<QueuedRom>, left: Option<seq<int>>)
    ensures left.Some? <==> keys.Some?
    ensures keys.Some? ==> forall k <- left.value :: k in keys.value
    ensures keys.Some? ==> forall k <- keys.value :: k in left.value || Find(storage.sys.s.queue, k).None?
    ensures rom.Some? ==> Find(storage.sys.s.queue, rom.value.key) == rom
    ensures rom.Some? && keys.Some? ==> rom.value.key in keys.value
    ensures rom.None? ==>
      if keys.None? then storage.sys.s.queue == [] else forall k <- keys.value :: Find(storage.sys.s.queue, k).None?
  {
    left := keys;
    if keys.None? {
      rom := if storage.sys.s.queue == [] then None else Some(storage.sys.s.queue[0]);
      return;
    }
    var pending := keys.value;
    while pending != []
      invariant forall k <- pending :: k in keys.value
      invariant forall k <- keys.value :: k in pending || Find(storage.sys.s.queue, k).None?
      decreases |pending|
    {
      rom := Find(storage.sys.s.queue, pending[0]);
      if rom.Some? {
        left := Some(pending);
        return;
      }
      pending := pending[1..];
    }
    left := Some(pending);
    rom := None;
  }

  /** `wait_for_pace` with the lock released: other drainers run between the polls, and it is given up
      at the first poll at which a pause is asked for. */
  method WaitForPace(storage: Storage, env: Environment, round: nat, readyAt: int, mine: set<int>)
    returns (ready: bool, polls: nat)
    requires storage.Valid() && !storage.HasLock()
    modifies storage
    ensures storage.Valid() && old(storage.history) <= storage.history
    ensures !storage.HasLock() && storage.Mine() == old(storage.Mine())
    ensures Rely(old(storage.sys).s, storage.sys.s, mine)
    ensures forall k :: 0 <= k < polls ==> !env.waitPause(round, k)
    ensures ready <==> !env.waitPause(round, polls)
    ensures ready ==> storage.sys.s.now >= readyAt
  {
    ghost var start := storage.sys.s;
    polls := 0;
    while true
      invariant storage.Valid() && old(storage.history) <= storage.history
      invariant !storage.HasLock() && storage.Mine() == old(storage.Mine())
      invariant Rely(start, storage.sys.s, mine)
      invariant forall k :: 0 <= k < polls ==> !env.waitPause(round, k)
      decreases readyAt - storage.sys.s.now
    {
      if env.waitPause(round, polls) {
        return false, polls;
      }
      var left := readyAt - storage.sys.s.now;
      if left <= 0 {
        return true, polls;
      }
      ghost var before := storage.sys.s;
      storage.OthersRun(Min(500, left), mine);
      RelyTransitive(start, before, storage.sys.s, mine);
      polls := polls + 1;
    }
  }

  /** The local variables of `_drain_locked`; `rounds` counts the rounds that went on behind their
      checks, `requests` are all requests made, `starts` the times at which they began and `checks` the
      looks at the clock before them. */
  datatype Drain = Drain(
    cached: nat,
    noMatch: nat,
    requested: nat,
    nextRequestAt: int,
    paced: bool,
    known: set<int>,
    left: Option<seq<int>>,
    reports: seq<Report>,
    rounds: nat,
    requests: seq<Request>,
    checks: seq<int>,
    starts: seq<int>)

  /** Every request follows its own look at the clock, which is within the batch time and comes after
      the request before, from the 21st on by the pace. */
  predicate WithinBatch(checks: seq<int>, starts: seq<int>, startedAt: int) {
    && |checks| == |starts|
    && (forall i :: 0 <= i < |starts| ==> startedAt <= checks[i] < startedAt + BATCH_MAX_MS && checks[i] <= starts[i])
    && (forall i, j :: 0 <= i < j < |starts| ==> starts[i] <= checks[j])
    && (forall i, j :: 0 <= i < j < |starts| && BURST_GAMES <= j ==> starts[i] + PACE_MS <= checks[j])
  }

  predicate PaceInv(d: Drain, startedAt: int, now: int) {
    && startedAt <= now
    && d.requested == |d.starts| <= 119
    && Paced(d.starts) && NonDecreasing(d.starts) && WithinBatch(d.checks, d.starts, startedAt)
    && (forall i :: 0 <= i < |d.starts| ==> startedAt <= d.starts[i] <= now)
    && (d.requested > 0 ==> d.nextRequestAt == d.starts[d.requested - 1] + PACE_MS)
    && (d.paced ==> d.requested > 0 && now >= d.nextRequestAt)
  }

  predicate ReportInv(d: Drain, keys: Option<seq<int>>, mine: set<int>, queue: seq<QueuedRom>) {
    && d.cached == Count(d.reports, Cached) && d.noMatch == Count(d.reports, NoMatch)
    && (d.left.Some? <==> keys.Some?)
    && (keys.Some? ==>
          && (forall k <- keys.value :: k in mine)
          && (forall k <- d.left.value :: k in mine)
          && (forall k <- keys.value :: k in d.left.value || Find(queue, k).None?)
          && Accounted(d.reports, queue, mine))
  }

  // What a drain made of the answers it got.

  /** A request that took place: its outcome is what the answers mean, what was known then covers every
      game stored when the drain began, and a game it cached was charged. */
  ghost predicate Asked(env: Environment, n: nat, q: Request, first: Shared, s: Shared) {
    && RequestMeans(env, n, q) && first.patches <= q.known <= s.patches
    && (q.outcome.Cached? ==> q.gameId in s.cachedGames && q.gameId !in first.cachedGames)
  }

  /** One after which the drain goes on: it is reported as it ended. */
  ghost predicate Settled(env: Environment, n: nat, q: Request, reports: seq<Report>, first: Shared, s: Shared) {
    && Asked(env, n, q, first, s) && env.limitAfter(n).None?
    && !q.outcome.Failed? && !q.outcome.AuthRejected? && Report(q.key, q.outcome, q.gameId) in reports
  }

  /** A row answered by the cache in one of the rounds. */
  ghost predicate FromCache(env: Environment, rounds: nat, r: Report) {
    exists m, t ::
      && 0 <= m < rounds
      && match AnswerOf(env.cache(m, r.key), t)
         case NotListed => r.outcome.NoMatch? && r.gameId == 0
         case Game(gameId) => r.outcome.AlreadyCached? && r.gameId == gameId
         case Unknown => false
  }

  /** Nothing is reported but what a request came to or the cache answered. */
  ghost predicate Sourced(env: Environment, rounds: nat, requests: seq<Request>, r: Report) {
    || FromCache(env, rounds, r)
    || exists n :: 0 <= n < |requests| && r == Report(requests[n].key, requests[n].outcome, requests[n].gameId)
  }

  /** A request after the first, made when the window had 20 games already, starts 18 seconds after the
      one before, whoever those games were cached by. */
  predicate WindowPaced(requests: seq<Request>, starts: seq<int>) {
    && |requests| <= |starts|
    && forall n :: 1 <= n < |requests| && requests[n].usedBefore >= 20 ==> starts[n] >= starts[n - 1] + 18_000
  }

  /** Between the rounds of a drain that began at `first`. */
  ghost predicate Followed(d: Drain, env: Environment, first: Shared, s: Shared) {
    && first.patches <= d.known
    && (forall n :: 0 <= n < |d.requests| ==> Settled(env, n, d.requests[n], d.reports, first, s))
    && (forall m :: 0 <= m < d.rounds ==> !env.pause(m) && env.limit(m).None?)
    && (forall r <- d.reports :: Sourced(env, d.rounds, d.requests, r))
    && WindowPaced(d.requests, d.starts)
  }

  /** The last request of a drain, if it ended the drain. */
  ghost predicate EndsWith(env: Environment, n: nat, q: Request, stop: DrainStop, s: Shared) {
    match env.limitAfter(n)
    case Some(until) => stop.RateLimited? && s.budget.pausedUntil >= until
    case None => (q.outcome.AuthRejected? && stop.Rejected?) || (q.outcome.Failed? && stop.RomFailed?)
  }

  /**
   When a drain ends: every request is what its answers mean, and all but one that ended the drain are
   reported as they ended; nothing else is reported but answers of the cache. No round before the last
   was asked to pause or rate limited, and why the drain stopped is what it was asked or answered last.
   */
  ghost predicate EndFollowed(d: Drain, env: Environment, stop: DrainStop, first: Shared, s: Shared) {
    && d.rounds > 0 && |d.requests| == d.requested
    && (forall n :: 0 <= n < |d.requests| ==> Asked(env, n, d.requests[n], first, s))
    && (forall n :: 0 <= n < |d.requests| ==>
          || Settled(env, n, d.requests[n], d.reports, first, s)
          || (n == |d.requests| - 1 && EndsWith(env, n, d.requests[n], stop, s)))
    && (forall r <- d.reports :: Sourced(env, d.rounds, d.requests, r))
    && (forall m :: 0 <= m < d.rounds - 1 ==> !env.pause(m) && env.limit(m).None?)
    && WindowPaced(d.requests, d.starts) && StoppedFor(d, env, stop, s)
  }

  /** At one of the polls of the round's wait a pause is asked for. */
  ghost predicate WaitPaused(env: Environment, round: nat) {
    exists poll :: env.waitPause(round, poll)
  }

  ghost predicate StoppedFor(d: Drain, env: Environment, stop: DrainStop, s: Shared)
    requires d.rounds > 0
  {
    var last := d.rounds - 1;
    && (env.pause(last) ==> stop.Paused?)
    && (!env.pause(last) && env.limit(last).Some? ==>
          stop.RateLimited? && s.budget.pausedUntil >= env.limit(last).value)
    && match stop
       case Paused => env.pause(last) || WaitPaused(env, last) || env.lockPause(last)
       case RateLimited =>
         || (!env.pause(last) && env.limit(last).Some?)
         || (d.requests != [] && env.limitAfter(|d.requests| - 1).Some?)
       case Rejected => d.requests != [] && d.requests[|d.requests| - 1].outcome.AuthRejected?
       case RomFailed => d.requests != [] && d.requests[|d.requests| - 1].outcome.Failed?
       case Busy => false
       case _ => true
  }

  lemma FollowedLater(d: Drain, e: Drain, env: Environment, first: Shared, s: Shared, t: Shared)
    requires Followed(d, env, first, s)
    requires e.requests == d.requests && e.reports == d.reports && e.rounds == d.rounds && d.known <= e.known
    requires d.starts <= e.starts && s.cachedGames <= t.cachedGames && s.patches <= t.patches
    ensures Followed(e, env, first, t)
  {
    hide RequestMeans, Sourced;
    assert forall g <- s.cachedGames :: g in t.cachedGames;
  }

  /** A round that is neither paused nor rate limited goes on. */
  lemma RoundGoesOn(d: Drain, e: Drain, env: Environment, first: Shared, s: Shared)
    requires Followed(d, env, first, s) && e == d.(rounds := d.rounds + 1)
    requires !env.pause(d.rounds) && env.limit(d.rounds).None?
    ensures Followed(e, env, first, s)
  {
    hide RequestMeans;
    SourcedLater(d.reports, env, d.rounds, d.requests, d.requests);
  }

  lemma SourcedLater(reports: seq<Report>, env: Environment, rounds: nat, requests: seq<Request>, more: seq<Request>)
    requires forall r <- reports :: Sourced(env, rounds, requests, r)
    requires |requests| <= |more| && forall n :: 0 <= n < |requests| ==> more[n] == requests[n]
    ensures forall r <- reports :: Sourced(env, rounds, more, r) && Sourced(env, rounds + 1, more, r)
  {
    forall r | r in reports
      ensures Sourced(env, rounds, more, r) && Sourced(env, rounds + 1, more, r)
    {
      if FromCache(env, rounds, r) {
        var m, t :| 0 <= m < rounds
          && match AnswerOf(env.cache(m, r.key), t)
             case NotListed => r.outcome.NoMatch? && r.gameId == 0
             case Game(gameId) => r.outcome.AlreadyCached? && r.gameId == gameId
             case Unknown => false;
        assert FromCache(env, rounds + 1, r);
      } else {
        var n :| 0 <= n < |requests| && r == Report(requests[n].key, requests[n].outcome, requests[n].gameId);
        assert more[n] == requests[n];
      }
    }
  }

  /** A drain ends at the top of a round. */
  lemma EndsAtTop(d: Drain, e: Drain, env: Environment, stop: DrainStop, first: Shared, s: Shared)
    requires Followed(d, env, first, s) && |d.requests| == d.requested && e == d.(rounds := d.rounds + 1)
    requires if env.pause(d.rounds) then stop.Paused?
             else env.limit(d.rounds).Some? && stop.RateLimited? && s.budget.pausedUntil >= env.limit(d.rounds).value
    ensures EndFollowed(e, env, stop, first, s)
  {
    hide RequestMeans;
    SourcedLater(d.reports, env, d.rounds, d.requests, d.requests);
  }

  /** A drain ends within a round, but not with a request. */
  lemma EndsInRound(d: Drain, env: Environment, stop: DrainStop, first: Shared, s: Shared)
    requires Followed(d, env, first, s) && |d.requests| == d.requested && d.rounds > 0
    requires stop.Empty? || stop.BudgetExhausted?
      || (stop.Paused? && (env.lockPause(d.rounds - 1) || WaitPaused(env, d.rounds - 1)))
    ensures EndFollowed(d, env, stop, first, s)
  {
    hide RequestMeans;
  }

  /** A drain ends with a request. */
  lemma EndsWithRequest(d: Drain, e: Drain, env: Environment, q: Request, stop: DrainStop, first: Shared, s: Shared)
    requires Followed(d, env, first, s) && |d.requests| + 1 == d.requested && d.rounds > 0
    requires e == d.(requests := d.requests + [q])
    requires Asked(env, |d.requests|, q, first, s) && EndsWith(env, |d.requests|, q, stop, s) && StartPaced(d, q)
    ensures EndFollowed(e, env, stop, first, s)
  {
    hide RequestMeans;
    SourcedLater(d.reports, env, d.rounds, d.requests, e.requests);
    assert e.requests[|d.requests|] == q;
    assert forall n :: 0 <= n < |d.requests| ==> e.requests[n] == d.requests[n];
  }

  /** The request that `d` has started but not recorded. */
  predicate StartPaced(d: Drain, q: Request) {
    && |d.starts| == |d.requests| + 1
    && (|d.requests| > 0 && q.usedBefore >= 20 ==> d.starts[|d.requests|] >= d.starts[|d.requests| - 1] + 18_000)
  }

  /** A request is reported and the drain goes on. */
  lemma RequestFollowed(d: Drain, e: Drain, env: Environment, q: Request, first: Shared, s: Shared, t: Shared)
    requires Followed(d, env, first, s) && s.cachedGames <= t.cachedGames && s.patches <= t.patches
    requires e.requests == d.requests + [q] && e.reports == d.reports + [Report(q.key, q.outcome, q.gameId)]
    requires e.rounds == d.rounds && d.known <= e.known && e.starts == d.starts && StartPaced(d, q)
    requires Asked(env, |d.requests|, q, first, t) && env.limitAfter(|d.requests|).None?
    requires !q.outcome.Failed? && !q.outcome.AuthRejected?
    ensures Followed(e, env, first, t)
  {
    hide RequestMeans;
    SourcedLater(d.reports, env, d.rounds, d.requests, e.requests);
    assert e.requests[|d.requests|] == q;
    assert e.reports[|d.reports|] == Report(q.key, q.outcome, q.gameId);
    assert Sourced(env, e.rounds, e.requests, Report(q.key, q.outcome, q.gameId));
    forall n | 0 <= n < |e.requests|
      ensures Settled(env, n, e.requests[n], e.reports, first, t)
    {
      if n < |d.requests| {
        assert Settled(env, n, d.requests[n], d.reports, first, s);
        assert forall r <- d.reports :: r in e.reports;
      }
    }
  }

  /** The cache's answer is reported and the drain goes on. */
  lemma AnswerFollowed(
      d: Drain, e: Drain, env: Environment, r: Report, m: nat, t: int, first: Shared, s: Shared, u: Shared)
    requires Followed(d, env, first, s) && s.cachedGames <= u.cachedGames && s.patches <= u.patches
    requires e.requests == d.requests && e.reports == d.reports + [r] && e.rounds == d.rounds && e.known == d.known
    requires m < d.rounds && e.starts == d.starts
    requires match AnswerOf(env.cache(m, r.key), t)
      case NotListed => r.outcome.NoMatch? && r.gameId == 0
      case Game(gameId) => r.outcome.AlreadyCached? && r.gameId == gameId
      case Unknown => false
    ensures Followed(e, env, first, u)
  {
    hide RequestMeans, AnswerOf;
    assert FromCache(env, e.rounds, r);
    forall n | 0 <= n < |e.requests|
      ensures Settled(env, n, e.requests[n], e.reports, first, u)
    {
      assert Settled(env, n, d.requests[n], d.reports, first, s);
      assert forall r <- d.reports :: r in e.reports;
    }
  }

  /** What the reports of a drain that began at `first` say is true, and it followed its answers. */
  ghost predicate Booked(d: Drain, env: Environment, first: Shared, s: Shared, mine: set<int>) {
    && GamesMatch(d.reports, first, s) && KeptBut(d.reports, first.queue, s.queue, mine, {})
    && Followed(d, env, first, s)
  }

  lemma BookedLater(d: Drain, e: Drain, env: Environment, first: Shared, s: Shared, t: Shared, mine: set<int>)
    requires Booked(d, env, first, s, mine) && e.reports == d.reports
    requires e.requests == d.requests && e.rounds == d.rounds && d.known <= e.known && d.starts <= e.starts
    requires s.cachedGames <= t.cachedGames && s.patches <= t.patches
    requires forall k <- mine :: Find(t.queue, k) == Find(s.queue, k)
    ensures Booked(e, env, first, t, mine)
  {
    hide GamesMatch, KeptBut, Followed;
    GamesMatchLater(d.reports, first, s, t);
    KeptLater(d.reports, first.queue, s.queue, t.queue, mine, {});
    FollowedLater(d, e, env, first, s, t);
  }

  /** Why a drain ended. */
  predicate StopMeans(stop: DrainStop, startedAt: int, s: Shared, keys: Option<seq<int>>) {
    match stop
    case Empty => if keys.None? then s.queue == [] else forall k <- keys.value :: Find(s.queue, k).None?
    case BudgetExhausted => s.now >= startedAt + BATCH_MAX_MS || s.budget.Remaining(s.now) == 0
    case _ => true
  }

  /** At the end only a failed row is not as it was: it has one more attempt, or is dropped after
      the last. */
  predicate FinallyKept(
      reports: seq<Report>, stop: DrainStop, before: seq<QueuedRom>, after: seq<QueuedRom>, mine: set<int>)
  {
    if !stop.RomFailed? then KeptBut(reports, before, after, mine, {})
    else exists failed <- before ::
      failed.key in mine && FailedRow(failed, before, after) && KeptBut(reports, before, after, mine, {failed.key})
  }

  predicate FailedRow(failed: QueuedRom, before: seq<QueuedRom>, after: seq<QueuedRom>) {
    && Find(before, failed.key) == Some(failed)
    && Find(after, failed.key) == if failed.attempts < 2 then Some(QueuedRom(failed.key, failed.attempts + 1)) else None
  }

  /** `_drain_locked`. Rows with a key in `mine` are touched by no other drainer; with `keys`, those
      are the rows it works on. */
  method DrainLocked(storage: Storage, env: Environment, keys: Option<seq<int>>, mine: set<int>)
    returns (r: DrainResult, d: Drain)
    requires storage.Valid() && storage.HasLock() && storage.Mine().phase.Locked?
    requires keys.Some? ==> forall k <- keys.value :: k in mine
    modifies storage
    // It takes steps of the system, the others theirs: no game is cached or charged twice.
    ensures storage.Valid() && old(storage.history) <= storage.history
    ensures Rely(old(storage.sys).s, storage.sys.s, {}) && GamesMatch(d.reports, old(storage.sys).s, storage.sys.s)
    // Every request comes to what the answers to it mean, and is reported so.
    ensures EndFollowed(d, env, r.stop, old(storage.sys).s, storage.sys.s)
    // The pace holds, no request follows a look at the clock too late, and with that the bound.
    ensures Paced(d.starts) && |d.starts| == d.requested <= 119
    ensures WithinBatch(d.checks, d.starts, old(storage.sys).s.now)
    // Each row is reported once, after it has left the queue, and no other row is touched.
    ensures keys.Some? ==> Accounted(d.reports, storage.sys.s.queue, mine)
    ensures keys.Some? ==> FinallyKept(d.reports, r.stop, old(storage.sys).s.queue, storage.sys.s.queue, mine)
    ensures r.cached == Count(d.reports, Cached) && r.noMatch == Count(d.reports, NoMatch)
    ensures StopMeans(r.stop, old(storage.sys).s.now, storage.sys.s, keys)
  {
    hide Rely, Count, Accounted, Booked, FinallyKept, StopMeans, GamesMatch, WithinBatch, EndFollowed;
    ghost var first := storage.sys.s;
    var startedAt := storage.sys.s.now;
    var known := storage.Learn(false);
    d := Drain(0, 0, 0, 0, false, known, keys, [], 0, [], [], []);
    FirstRound(first, env, keys, mine, d);
    while true
      invariant storage.Knowing(d.known) && old(storage.history) <= storage.history
      invariant Rely(first, storage.sys.s, {}) && |d.requests| == d.requested
      invariant PaceInv(d, startedAt, storage.sys.s.now)
      invariant ReportInv(d, keys, mine, storage.sys.s.queue)
      invariant Booked(d, env, first, storage.sys.s, if keys.Some? then mine else {})
      decreases 119 - d.requested, !d.paced, |storage.sys.s.queue| + storage.sys.s.toCome
    {
      ghost var top := storage.sys.s;
      var stop;
      d, stop := Round(storage, env, d, startedAt, keys, if keys.Some? then mine else {}, first);
      RelyTransitive(first, top, storage.sys.s, {});
      if stop.Some? {
        return DrainResult(d.cached, d.noMatch, stop.value), d;
      }
    }
  }

  lemma FirstRound(s: Shared, env: Environment, keys: Option<seq<int>>, mine: set<int>, d: Drain)
    requires keys.Some? ==> forall k <- keys.value :: k in mine
    requires d == Drain(0, 0, 0, 0, false, s.patches, keys, [], 0, [], [], [])
    ensures PaceInv(d, s.now, s.now) && ReportInv(d, keys, mine, s.queue) && Rely(s, s, {})
    ensures Booked(d, env, s, s, if keys.Some? then mine else {})
  {
  }

  /** One round of the loop; `None` is its `continue` or its end. */
  method Round(
      storage: Storage, env: Environment, d: Drain, startedAt: int, keys: Option<seq<int>>, mine: set<int>,
      ghost first: Shared)
    returns (e: Drain, stop: Option<DrainStop>)
    requires storage.Knowing(d.known) && PaceInv(d, startedAt, storage.sys.s.now) && |d.requests| == d.requested
    requires ReportInv(d, keys, mine, storage.sys.s.queue) && Booked(d, env, first, storage.sys.s, mine)
    modifies storage
    ensures storage.Valid() && old(storage.history) <= storage.history
    ensures Rely(old(storage.sys).s, storage.sys.s, {}) && PaceInv(e, startedAt, storage.sys.s.now)
    ensures stop.None? ==> storage.Knowing(e.known) && |e.requests| == e.requested
    ensures stop.None? ==> ReportInv(e, keys, mine, storage.sys.s.queue) && Booked(e, env, first, storage.sys.s, mine)
    ensures stop.None? ==> Progress(d, old(storage.sys).s, e, storage.sys.s)
    ensures stop.Some? ==> Ended(e, env, stop.value, startedAt, keys, mine, first, storage.sys.s)
  {
    hide Rely, PaceInv, Booked, RowsKept, Run, ReportInv, Ended, Inv, AnswerOf;
    ghost var top := storage.sys.s;
    storage.Tick(mine);
    QuietKeeps(d, env, startedAt, top, storage.sys.s, keys, mine, first);
    e := d.(rounds := d.rounds + 1);
    NextRoundPace(d, e, startedAt, storage.sys.s.now);
    if env.pause(d.rounds) {
      StopsAtTop(d, e, env, Paused, startedAt, first, storage.sys.s, keys, mine);
      return e, Some(Paused);
    }
    ghost var resumed := storage.sys.s;
    var limited := CheckRateLimit(storage, env.limit(d.rounds), mine);
    QuietKeeps(d, env, startedAt, resumed, storage.sys.s, keys, mine, first);
    RelyTransitive(top, resumed, storage.sys.s, {});
    NextRoundPace(d, e, startedAt, storage.sys.s.now);
    if limited {
      StopsAtTop(d, e, env, RateLimited, startedAt, first, storage.sys.s, keys, mine);
      return e, Some(RateLimited);
    }
    RoundBegins(d, e, env, first, storage.sys.s, keys, mine);
    ghost var begun := storage.sys.s;
    QuietMeasure(top, resumed, begun, mine);
    e, stop := RoundOf(storage, env, e, startedAt, keys, mine, first);
    RelyTransitive(top, begun, storage.sys.s, {});
  }

  /** The round behind its checks: it looks at the clock and for a row, and asks the cache. */
  method RoundOf(
      storage: Storage, env: Environment, d: Drain, startedAt: int, keys: Option<seq<int>>, mine: set<int>,
      ghost first: Shared)
    returns (e: Drain, stop: Option<DrainStop>)
    requires storage.Knowing(d.known) && PaceInv(d, startedAt, storage.sys.s.now)
    requires |d.requests| == d.requested && d.rounds > 0
    requires ReportInv(d, keys, mine, storage.sys.s.queue) && Booked(d, env, first, storage.sys.s, mine)
    modifies storage
    ensures storage.Valid() && old(storage.history) <= storage.history
    ensures Rely(old(storage.sys).s, storage.sys.s, {}) && PaceInv(e, startedAt, storage.sys.s.now)
    ensures stop.None? ==> storage.Knowing(e.known) && |e.requests| == e.requested
    ensures stop.None? ==> ReportInv(e, keys, mine, storage.sys.s.queue) && Booked(e, env, first, storage.sys.s, mine)
    ensures stop.None? ==> Progress(d, old(storage.sys).s, e, storage.sys.s)
    ensures stop.Some? ==> Ended(e, env, stop.value, startedAt, keys, mine, first, storage.sys.s)
  {
    hide Rely, PaceInv, Booked, RowsKept, Run, ReportInv, Ended, Inv, AnswerOf;
    RelyRefl(storage.sys.s, {});
    e := d;
    var checkedAt := storage.sys.s.now;
    if checkedAt >= startedAt + BATCH_MAX_MS {
      StopsInRound(e, env, BudgetExhausted, startedAt, first, storage.sys.s, keys, mine);
      return e, Some(BudgetExhausted);
    }
    LooksInTime(e, checkedAt, startedAt);
    var next, left := NextRom(storage, e.left);
    if next.None? {
      NoneLeft(e, keys, mine, storage.sys.s.queue);
      StopsInRound(e, env, Empty, startedAt, first, storage.sys.s, keys, mine);
      return e, Some(Empty);
    }
    var rom := next.value;
    ChosenIsMine(e, keys, mine, storage.sys.s.queue, rom.key);
    LeftChanges(e, e.(left := left), env, startedAt, storage.sys.s, keys, mine, first);
    e := e.(left := left);
    var local := AnswerLocally(env.cache(e.rounds - 1, rom.key), checkedAt);
    if local.NotListed? || (local.Game? && local.gameId in e.known) {
      e := AnsweredRound(storage, env, e, startedAt, keys, mine, rom, checkedAt, local, first);
      stop := None;
    } else {
      e, stop := WorkRound(storage, env, e, startedAt, checkedAt, keys, mine, rom, local, first);
    }
  }

  /** The row needs a request, if the budget and the pace allow one. */
  method WorkRound(
      storage: Storage, env: Environment, d: Drain, startedAt: int, checkedAt: int, keys: Option<seq<int>>,
      mine: set<int>, rom: QueuedRom, local: LocalAnswer, ghost first: Shared)
    returns (e: Drain, stop: Option<DrainStop>)
    requires storage.Knowing(d.known) && PaceInv(d, startedAt, storage.sys.s.now)
    requires |d.requests| == d.requested && d.rounds > 0
    requires ReportInv(d, keys, mine, storage.sys.s.queue) && Booked(d, env, first, storage.sys.s, mine)
    requires keys.Some? ==> rom.key in mine && Find(storage.sys.s.queue, rom.key) == Some(rom)
    requires LookedInTime(d, checkedAt, startedAt) && checkedAt <= storage.sys.s.now
    requires local == AnswerOf(env.cache(d.rounds - 1, rom.key), checkedAt)
    modifies storage
    ensures storage.Valid() && old(storage.history) <= storage.history
    ensures Rely(old(storage.sys).s, storage.sys.s, {}) && PaceInv(e, startedAt, storage.sys.s.now)
    ensures stop.None? ==> storage.Knowing(e.known) && |e.requests| == e.requested
    ensures stop.None? ==> ReportInv(e, keys, mine, storage.sys.s.queue) && Booked(e, env, first, storage.sys.s, mine)
    ensures stop.None? ==> e.requested > d.requested || (e.requested == d.requested && !d.paced && e.paced)
    ensures stop.Some? ==> Ended(e, env, stop.value, startedAt, keys, mine, first, storage.sys.s)
  {
    hide Rely, PaceInv, Booked, RowsKept, Run, ReportInv, Ended, Inv, AnswerOf;
    ghost var chosen := storage.sys.s;
    storage.Tick(mine);
    QuietKeeps(d, env, startedAt, chosen, storage.sys.s, keys, mine, first);
    QuietKeepsRow(chosen, storage.sys.s, mine, rom.key);
    ghost var ready := storage.sys.s;
    if storage.sys.s.budget.Remaining(storage.sys.s.now) == 0 {
      StopsInRound(d, env, BudgetExhausted, startedAt, first, storage.sys.s, keys, mine);
      return d, Some(BudgetExhausted);
    } else if d.requested > 0 && !d.paced && PastBurst(storage.sys.s, d.requested) {
      e, stop := WaitRound(storage, env, d, startedAt, keys, mine, first);
    } else {
      e, stop := RequestRound(storage, env, d, startedAt, checkedAt, keys, mine, rom, local, first);
    }
    RelyTransitive(chosen, ready, storage.sys.s, {});
  }

  lemma NextRoundPace(d: Drain, e: Drain, startedAt: int, now: int)
    requires PaceInv(d, startedAt, now) && e == d.(rounds := d.rounds + 1)
    ensures PaceInv(e, startedAt, now)
  {
  }

  /** The round goes on behind its checks. */
  lemma RoundBegins(
      d: Drain, e: Drain, env: Environment, first: Shared, s: Shared, keys: Option<seq<int>>, mine: set<int>)
    requires ReportInv(d, keys, mine, s.queue) && Booked(d, env, first, s, mine)
    requires e == d.(rounds := d.rounds + 1) && !env.pause(d.rounds) && env.limit(d.rounds).None?
    ensures ReportInv(e, keys, mine, s.queue) && Booked(e, env, first, s, mine)
  {
    RoundGoesOn(d, e, env, first, s);
  }

  /** A drain that stops before its round has begun. */
  lemma StopsAtTop(
      d: Drain, e: Drain, env: Environment, stop: DrainStop, startedAt: int, first: Shared, s: Shared,
      keys: Option<seq<int>>, mine: set<int>)
    requires ReportInv(d, keys, mine, s.queue) && Booked(d, env, first, s, mine) && |d.requests| == d.requested
    requires e == d.(rounds := d.rounds + 1)
    requires if env.pause(d.rounds) then stop.Paused?
             else env.limit(d.rounds).Some? && stop.RateLimited? && s.budget.pausedUntil >= env.limit(d.rounds).value
    ensures Ended(e, env, stop, startedAt, keys, mine, first, s)
  {
    NothingFailed(d, env, stop, first, s, keys, mine);
    EndsAtTop(d, e, env, stop, first, s);
    hide EndFollowed, FinallyKept, GamesMatch;
  }

  /** A drain that stops within a round, but not with a request. */
  lemma StopsInRound(
      d: Drain, env: Environment, stop: DrainStop, startedAt: int, first: Shared, s: Shared,
      keys: Option<seq<int>>, mine: set<int>)
    requires ReportInv(d, keys, mine, s.queue) && Booked(d, env, first, s, mine)
    requires |d.requests| == d.requested && d.rounds > 0
    requires stop.Empty? || stop.BudgetExhausted?
      || (stop.Paused? && (env.lockPause(d.rounds - 1) || WaitPaused(env, d.rounds - 1)))
    requires StopMeans(stop, startedAt, s, keys)
    ensures Ended(d, env, stop, startedAt, keys, mine, first, s)
  {
    NothingFailed(d, env, stop, first, s, keys, mine);
    EndsInRound(d, env, stop, first, s);
    hide EndFollowed, FinallyKept, GamesMatch;
  }

  lemma NoneLeft(d: Drain, keys: Option<seq<int>>, mine: set<int>, queue: seq<QueuedRom>)
    requires ReportInv(d, keys, mine, queue)
    ensures keys.Some? <==> d.left.Some?
    ensures keys.Some? && (forall k <- d.left.value :: Find(queue, k).None?) ==>
      forall k <- keys.value :: Find(queue, k).None?
  {
    hide Accounted, Count;
  }

  lemma ChosenIsMine(d: Drain, keys: Option<seq<int>>, mine: set<int>, queue: seq<QueuedRom>, key: int)
    requires ReportInv(d, keys, mine, queue) && (d.left.Some? ==> key in d.left.value)
    ensures keys.Some? ==> key in mine
  {
    hide Accounted, Count;
  }

  /** What holds when a drain ends. */
  ghost predicate Ended(
      d: Drain, env: Environment, stop: DrainStop, startedAt: int, keys: Option<seq<int>>, mine: set<int>,
      first: Shared, s: Shared)
  {
    && EndFollowed(d, env, stop, first, s)
    && Reported(d, keys, mine, s.queue) && GamesMatch(d.reports, first, s)
    && (keys.Some? ==> FinallyKept(d.reports, stop, first.queue, s.queue, mine))
    && StopMeans(stop, startedAt, s, keys)
  }

  lemma NothingFailed(
      d: Drain, env: Environment, stop: DrainStop, first: Shared, s: Shared, keys: Option<seq<int>>, mine: set<int>)
    requires !stop.RomFailed? && ReportInv(d, keys, mine, s.queue) && Booked(d, env, first, s, mine)
    ensures Reported(d, keys, mine, s.queue) && GamesMatch(d.reports, first, s)
    ensures FinallyKept(d.reports, stop, first.queue, s.queue, mine)
  {
  }

  lemma LooksInTime(d: Drain, now: int, startedAt: int)
    requires PaceInv(d, startedAt, now) && now < startedAt + BATCH_MAX_MS
    ensures LookedInTime(d, now, startedAt)
  {
    hide Paced, WithinBatch;
  }

  lemma QuietMeasure(a: Shared, b: Shared, c: Shared, mine: set<int>)
    requires Quiet(a, b, mine) && Quiet(b, c, mine)
    ensures |c.queue| + c.toCome <= |a.queue| + a.toCome
  {
  }

  lemma QuietKeepsRow(s: Shared, t: Shared, mine: set<int>, key: int)
    requires Quiet(s, t, mine)
    ensures key in mine ==> Find(t.queue, key) == Find(s.queue, key)
  {
  }

  lemma QuietKeeps(
      d: Drain, env: Environment, startedAt: int, s: Shared, t: Shared, keys: Option<seq<int>>, mine: set<int>,
      first: Shared)
    requires Quiet(s, t, mine) && PaceInv(d, startedAt, s.now)
    requires ReportInv(d, keys, mine, s.queue) && Booked(d, env, first, s, mine)
    ensures PaceInv(d, startedAt, t.now) && Rely(s, t, {})
    ensures ReportInv(d, keys, mine, t.queue) && Booked(d, env, first, t, mine)
  {
    OthersKeepReports(d, keys, mine, s.queue, t.queue);
    BookedLater(d, d, env, first, s, t, mine);
    hide Booked, ReportInv;
  }

  lemma LeftChanges(
      d: Drain, e: Drain, env: Environment, startedAt: int, s: Shared, keys: Option<seq<int>>, mine: set<int>,
      first: Shared)
    requires PaceInv(d, startedAt, s.now) && ReportInv(d, keys, mine, s.queue) && Booked(d, env, first, s, mine)
    requires e == d.(left := e.left) && (e.left.Some? <==> d.left.Some?)
    requires d.left.Some? ==> forall k <- e.left.value :: k in d.left.value
    requires d.left.Some? ==> forall k <- d.left.value :: k in e.left.value || Find(s.queue, k).None?
    ensures PaceInv(e, startedAt, s.now) && ReportInv(e, keys, mine, s.queue) && Booked(e, env, first, s, mine)
  {
    hide Accounted, Count, KeptBut, GamesMatch, Settled, Sourced;
  }

  /** The row needs no request: it is reported and removed. */
  method AnsweredRound(
      storage: Storage, env: Environment, d: Drain, startedAt: int, keys: Option<seq<int>>, mine: set<int>,
      rom: QueuedRom, answeredAt: int, local: LocalAnswer, ghost first: Shared)
    returns (e: Drain)
    requires storage.Knowing(d.known) && PaceInv(d, startedAt, storage.sys.s.now)
    requires ReportInv(d, keys, mine, storage.sys.s.queue) && Booked(d, env, first, storage.sys.s, mine)
    requires Find(storage.sys.s.queue, rom.key) == Some(rom) && (keys.Some? ==> rom.key in mine)
    requires local.NotListed? || (local.Game? && local.gameId in d.known)
    requires d.rounds > 0 && local == AnswerOf(env.cache(d.rounds - 1, rom.key), answeredAt)
    modifies storage
    ensures storage.Knowing(e.known) && old(storage.history) <= storage.history
    ensures Rely(old(storage.sys).s, storage.sys.s, {}) && PaceInv(e, startedAt, storage.sys.s.now)
    ensures ReportInv(e, keys, mine, storage.sys.s.queue) && Booked(e, env, first, storage.sys.s, mine)
    ensures e.requested == d.requested && e.paced == d.paced && e.requests == d.requests
    ensures var s, t := old(storage.sys).s, storage.sys.s; |t.queue| + t.toCome < |s.queue| + s.toCome
  {
    hide Run, Inv, AnswerOf, PaceInv, ReportInv, Booked;
    KnowsGames(storage.first, storage.history, storage.me, d.known);
    var report :=
      if local.NotListed? then Report(rom.key, NoMatch, 0) else Report(rom.key, AlreadyCached, local.gameId);
    ghost var before := storage.sys.s;
    storage.Remove(rom.key);
    e := d.(noMatch := if local.NotListed? then d.noMatch + 1 else d.noMatch, reports := d.reports + [report]);
    ReportPace(d, e, startedAt, storage.sys.s.now);
    Answering(d, e, env, first, before, storage.sys.s, keys, mine, report, answeredAt);
  }

  lemma ReportPace(d: Drain, e: Drain, startedAt: int, now: int)
    requires PaceInv(d, startedAt, now) && e == d.(noMatch := e.noMatch, reports := e.reports)
    ensures PaceInv(e, startedAt, now)
  {
    hide Paced, NonDecreasing, WithinBatch;
  }

  /** The cache's answer is reported and the row gone. */
  lemma Answering(
      d: Drain, e: Drain, env: Environment, first: Shared, before: Shared, s: Shared, keys: Option<seq<int>>,
      mine: set<int>, report: Report, answeredAt: int)
    requires ReportInv(d, keys, mine, before.queue) && Booked(d, env, first, before, mine) && d.rounds > 0
    requires s == before.(queue := RemoveRow(before.queue, report.key)) && d.known <= before.patches
    requires Find(before.queue, report.key).Some? && (keys.Some? ==> report.key in mine)
    requires match AnswerOf(env.cache(d.rounds - 1, report.key), answeredAt)
      case NotListed => report.outcome.NoMatch? && report.gameId == 0
      case Game(gameId) => report.outcome.AlreadyCached? && report.gameId == gameId && gameId in d.known
      case Unknown => false
    requires e == d.(noMatch := if report.outcome.NoMatch? then d.noMatch + 1 else d.noMatch,
                     reports := d.reports + [report])
    ensures ReportInv(e, keys, mine, s.queue) && Booked(e, env, first, s, mine)
  {
    hide Accounted, Count, KeptBut, GamesMatch, AnswerOf, Followed;
    FinalReport(d.reports, before.queue, s.queue, mine, report, keys.Some?);
    GamesMatchMore(d.reports, first, before, s, report);
    KeptMore(d.reports, first.queue, before.queue, s.queue, mine, report);
    AnswerFollowed(d, e, env, report, d.rounds - 1, answeredAt, first, before, s);
  }

  /** Waits for the pace with the lock free; afterwards everything is checked again. */
  method WaitRound(
      storage: Storage, env: Environment, d: Drain, startedAt: int, keys: Option<seq<int>>, mine: set<int>,
      ghost first: Shared)
    returns (e: Drain, stop: Option<DrainStop>)
    requires storage.Knowing(d.known) && PaceInv(d, startedAt, storage.sys.s.now)
    requires ReportInv(d, keys, mine, storage.sys.s.queue) && Booked(d, env, first, storage.sys.s, mine)
    requires d.requested > 0 && |d.requests| == d.requested && d.rounds > 0
    modifies storage
    ensures storage.Valid() && old(storage.history) <= storage.history
    ensures Rely(old(storage.sys).s, storage.sys.s, {}) && PaceInv(e, startedAt, storage.sys.s.now)
    ensures ReportInv(e, keys, mine, storage.sys.s.queue) && Booked(e, env, first, storage.sys.s, mine)
    ensures stop.None? ==> storage.Knowing(e.known) && e.requested == d.requested && e.paced
    ensures stop.None? ==> e.requests == d.requests && !env.waitPause(d.rounds - 1, 0)
    ensures stop.Some? ==> stop.value.Paused? && Ended(e, env, stop.value, startedAt, keys, mine, first, storage.sys.s)
  {
    hide Accounted, Count, Paced, Booked, FinallyKept, GamesMatch, WithinBatch, Run, EndFollowed;
    ghost var before := storage.sys.s;
    storage.Unlock();
    var ready, _ := WaitForPace(storage, env, d.rounds - 1, d.nextRequestAt, mine);
    ghost var waited := storage.sys.s;
    var locked := storage.TryLock(mine, true, env.lockPause(d.rounds - 1));
    RelyTransitive(before, waited, storage.sys.s, mine);
    OthersKeepReports(d, keys, mine, before.queue, storage.sys.s.queue);
    BookedLater(d, d, env, first, before, storage.sys.s, mine);
    if !ready || !locked {
      StopsInRound(d, env, Paused, startedAt, first, storage.sys.s, keys, mine);
      return d, Some(Paused);
    }
    var known := storage.Learn(true);
    e := d.(known := known, paced := true);
    BookedLater(d, e, env, first, storage.sys.s, storage.sys.s, mine);
    stop := None;
  }

  lemma OthersKeepReports(
      d: Drain, keys: Option<seq<int>>, mine: set<int>, before: seq<QueuedRom>, after: seq<QueuedRom>)
    requires ReportInv(d, keys, mine, before)
    requires forall k <- mine :: Find(after, k) == Find(before, k)
    ensures ReportInv(d, keys, mine, after)
  {
  }

  /** Starts a request for the row and deals with its outcome. */
  method RequestRound(
      storage: Storage, env: Environment, d: Drain, startedAt: int, checkedAt: int, keys: Option<seq<int>>,
      mine: set<int>, rom: QueuedRom, local: LocalAnswer, ghost first: Shared)
    returns (e: Drain, stop: Option<DrainStop>)
    requires storage.Knowing(d.known) && PaceInv(d, startedAt, storage.sys.s.now)
    requires ReportInv(d, keys, mine, storage.sys.s.queue) && Booked(d, env, first, storage.sys.s, mine)
    requires keys.Some? ==> rom.key in mine && Find(storage.sys.s.queue, rom.key) == Some(rom)
    requires LookedInTime(d, checkedAt, startedAt) && checkedAt <= storage.sys.s.now
    requires storage.sys.s.budget.Remaining(storage.sys.s.now) > 0
    requires !(d.requested > 0 && !d.paced && PastBurst(storage.sys.s, d.requested))
    requires |d.requests| == d.requested && d.rounds > 0
    requires local == AnswerOf(env.cache(d.rounds - 1, rom.key), checkedAt)
    modifies storage
    ensures storage.Valid() && old(storage.history) <= storage.history
    ensures Rely(old(storage.sys).s, storage.sys.s, {}) && PaceInv(e, startedAt, storage.sys.s.now)
    ensures stop.None? ==> storage.Knowing(e.known) && |e.requests| == e.requested > d.requested
    ensures stop.None? ==> ReportInv(e, keys, mine, storage.sys.s.queue) && Booked(e, env, first, storage.sys.s, mine)
    ensures stop.Some? ==> Ended(e, env, stop.value, startedAt, keys, mine, first, storage.sys.s)
  {
    hide Inv, Rely, PaceInv, Booked, RowsKept, Run, RequestMeans, Ended, ReportInv, AnswerOf, Asked;
    KnowsGames(storage.first, storage.history, storage.me, d.known);
    storage.CheckBudget();
    var used := storage.sys.s.budget.Current(storage.sys.s.now).used;
    ghost var before := storage.sys.s;
    storage.Tick(mine);
    QuietKeeps(d, env, startedAt, before, storage.sys.s, keys, mine, first);
    QuietKeepsRow(before, storage.sys.s, mine, rom.key);
    var now := storage.sys.s.now;
    e := d.(requested := d.requested + 1, paced := false, nextRequestAt := now + PACE_MS,
            checks := d.checks + [checkedAt], starts := d.starts + [now]);
    StartRequest(d, e, startedAt, checkedAt, now);
    StartsPaced(d, startedAt, now);
    ghost var started := storage.sys.s;
    SameQueueReports(d, e, keys, mine, started.queue);
    BookedLater(d, e, env, first, started, started, mine);
    KnownStays(before, started, mine, d.known);
    var q := CacheAndCharge(storage, env, |d.requests|, rom.key, used, d.rounds - 1, checkedAt, local, d.known, mine);
    ghost var charged := storage.sys.s;
    var limited := CheckRateLimit(storage, env.limitAfter(|d.requests|), mine);
    RequestDone(d, started, charged, storage.sys.s, mine, rom, q.outcome, q.gameId);
    LaterPace(e, startedAt, started.now, storage.sys.s.now);
    RelyTransitive(before, started, storage.sys.s, {});
    OthersKeepReports(e, keys, mine, started.queue, storage.sys.s.queue);
    BookedLater(e, e, env, first, started, storage.sys.s, mine);
    RequestAsked(e, env, q, first, started, storage.sys.s, mine);
    if limited {
      StopsWithRequest(
        e, e.(requests := e.requests + [q]), env, q, RateLimited, startedAt, first, storage.sys.s, keys, mine);
      PaceOfRequests(e, e.(requests := e.requests + [q]), startedAt, storage.sys.s.now);
      return e.(requests := e.requests + [q]), Some(RateLimited);
    }
    ghost var checked := storage.sys.s;
    e, stop := EndRequest(storage, env, e, startedAt, keys, mine, rom, q, first, started);
    RelyTransitive(before, checked, storage.sys.s, {});
  }

  lemma StartsPaced(d: Drain, startedAt: int, now: int)
    requires PaceInv(d, startedAt, now) && |d.requests| == d.requested
    ensures |d.starts| == |d.requests|
    ensures d.requested > 0 && d.paced ==> now >= d.starts[d.requested - 1] + 18_000
  {
  }

  /** The request that was made, seen from the beginning of the drain. */
  lemma RequestAsked(
      d: Drain, env: Environment, q: Request, first: Shared, started: Shared, s: Shared, mine: set<int>)
    requires Booked(d, env, first, started, mine) && RequestMeans(env, |d.requests|, q) && q.known == d.known
    requires d.known <= s.patches
    requires q.outcome.Cached? ==> q.gameId !in started.cachedGames && q.gameId in s.cachedGames
    ensures Asked(env, |d.requests|, q, first, s)
  {
    hide RequestMeans, KeptBut;
    assert forall g <- first.cachedGames :: g in started.cachedGames;
  }

  lemma PaceOfRequests(d: Drain, e: Drain, startedAt: int, now: int)
    requires PaceInv(d, startedAt, now) && e == d.(requests := e.requests)
    ensures PaceInv(e, startedAt, now)
  {
    hide Paced, NonDecreasing, WithinBatch;
  }

  /** A drain that stops with its last request, its row still there. */
  lemma StopsWithRequest(
      d: Drain, e: Drain, env: Environment, q: Request, stop: DrainStop, startedAt: int, first: Shared, s: Shared,
      keys: Option<seq<int>>, mine: set<int>)
    requires ReportInv(d, keys, mine, s.queue) && Booked(d, env, first, s, mine)
    requires stop.Rejected? || stop.RateLimited?
    requires |d.requests| + 1 == d.requested && d.rounds > 0 && StartPaced(d, q)
    requires e == d.(requests := d.requests + [q])
    requires Asked(env, |d.requests|, q, first, s) && EndsWith(env, |d.requests|, q, stop, s)
    ensures Ended(e, env, stop, startedAt, keys, mine, first, s)
  {
    NothingFailed(d, env, stop, first, s, keys, mine);
    EndsWithRequest(d, e, env, q, stop, first, s);
    hide EndFollowed, FinallyKept, GamesMatch;
  }

  /** The end of a request: the row fails, or is reported and removed. */
  method EndRequest(
      storage: Storage, env: Environment, d: Drain, startedAt: int, keys: Option<seq<int>>, mine: set<int>,
      rom: QueuedRom, q: Request, ghost first: Shared, ghost started: Shared)
    returns (e: Drain, stop: Option<DrainStop>)
    requires storage.Valid() && storage.HasLock()
    requires storage.Mine() == Drainer(d.known, if q.outcome.Cached? then Paid(q.gameId) else Ready)
    requires PaceInv(d, startedAt, storage.sys.s.now) && ReportInv(d, keys, mine, storage.sys.s.queue)
    requires Booked(d, env, first, started, mine) && Booked(d, env, first, storage.sys.s, mine)
    requires keys.Some? ==> rom.key in mine && Find(storage.sys.s.queue, rom.key) == Some(rom)
    requires var s := storage.sys.s;
      started.cachedGames <= s.cachedGames && started.patches <= s.patches && d.known <= s.patches
    requires q.key == rom.key && Asked(env, |d.requests|, q, first, storage.sys.s) && env.limitAfter(|d.requests|).None?
    requires |d.requests| + 1 == d.requested && d.rounds > 0 && StartPaced(d, q)
    requires q.outcome.Cached? ==> q.gameId !in started.cachedGames && q.gameId in storage.sys.s.cachedGames
    requires q.outcome.AlreadyCached? ==> q.gameId in d.known
    modifies storage
    ensures storage.Valid() && old(storage.history) <= storage.history
    ensures Rely(old(storage.sys).s, storage.sys.s, {}) && PaceInv(e, startedAt, storage.sys.s.now)
    ensures stop.None? ==> storage.Knowing(e.known) && |e.requests| == e.requested == d.requested
    ensures stop.None? ==> ReportInv(e, keys, mine, storage.sys.s.queue) && Booked(e, env, first, storage.sys.s, mine)
    ensures stop.Some? ==> Ended(e, env, stop.value, startedAt, keys, mine, first, storage.sys.s)
  {
    hide Accounted, Count, Inv, PaceInv, Booked, FinallyKept, GamesMatch, KeptBut, Reported, ReportInv, Run, Asked,
      EndFollowed;
    ghost var checked := storage.sys.s;
    e := d.(requests := d.requests + [q]);
    PaceOfRequests(d, e, startedAt, storage.sys.s.now);
    if q.outcome.AuthRejected? {
      StopsWithRequest(d, e, env, q, Rejected, startedAt, first, checked, keys, mine);
      return e, Some(Rejected);
    }
    if q.outcome.Failed? {
      RecordFailedAttempt(storage, rom);
      RowFailed(d, e, env, q, first, checked, storage.sys.s, keys, mine, rom);
      return e, Some(RomFailed);
    }
    storage.Remove(rom.key);
    OwnRemoval(checked, storage.sys.s);
    if q.outcome.Cached? {
      storage.NoteGame();
    }
    var report := Report(rom.key, q.outcome, q.gameId);
    e := d.(
      cached := if q.outcome.Cached? then d.cached + 1 else d.cached,
      noMatch := if q.outcome.NoMatch? then d.noMatch + 1 else d.noMatch,
      known := if q.outcome.Cached? then d.known + {q.gameId} else d.known,
      reports := d.reports + [report],
      requests := d.requests + [q]);
    SamePace(d, e, startedAt, storage.sys.s.now);
    Reporting(d, e, env, q, first, started, checked, storage.sys.s, keys, mine, report);
    stop := None;
  }

  /** The look at the clock before a request. */
  predicate LookedInTime(d: Drain, checkedAt: int, startedAt: int) {
    && startedAt <= checkedAt < startedAt + BATCH_MAX_MS
    && (d.paced ==> checkedAt >= d.nextRequestAt)
    && (d.starts != [] ==> checkedAt >= d.starts[|d.starts| - 1])
  }

  lemma KnownStays(s: Shared, t: Shared, mine: set<int>, known: set<int>)
    requires Quiet(s, t, mine) && (forall g <- s.cachedGames :: g in known) && known <= s.patches
    ensures (forall g <- t.cachedGames :: g in known) && known <= t.patches
  {
  }

  /** What is known once the request is over and the rate limit was checked. */
  lemma RequestDone(
      d: Drain, s: Shared, t: Shared, u: Shared, mine: set<int>, rom: QueuedRom, outcome: RomOutcome, gameId: int)
    requires (forall g <- s.cachedGames :: g in d.known) && d.known <= s.patches
    requires Rely(s, t, {}) && RowsKept(s.queue, t.queue, mine) && Quiet(t, u, mine)
    requires t.cachedGames == s.cachedGames + if outcome.Cached? then [gameId] else []
    requires outcome.Cached? ==> gameId !in d.known && gameId in t.patches
    requires outcome.AlreadyCached? ==> gameId in d.known
    ensures Rely(s, u, {}) && s.cachedGames <= u.cachedGames && d.known <= u.patches
    ensures forall k <- mine :: Find(u.queue, k) == Find(s.queue, k)
    ensures outcome.Cached? ==> gameId !in s.cachedGames && gameId in u.cachedGames && gameId in u.patches
    ensures s.patches <= u.patches && s.now <= u.now
  {
    QuietIsRely(t, u, {});
    RelyTransitive(s, t, u, {});
  }

  /** The row is reported and gone. */
  lemma Reporting(
      d: Drain, e: Drain, env: Environment, q: Request, first: Shared, started: Shared, checked: Shared, s: Shared,
      keys: Option<seq<int>>, mine: set<int>, report: Report)
    requires ReportInv(d, keys, mine, checked.queue)
    requires Booked(d, env, first, started, mine) && Booked(d, env, first, checked, mine)
    requires s == checked.(queue := RemoveRow(checked.queue, report.key))
    requires keys.Some? ==> report.key in mine && Find(checked.queue, report.key).Some?
    requires !report.outcome.Failed? && !report.outcome.AuthRejected?
    requires started.cachedGames <= checked.cachedGames
    requires started.patches <= checked.patches && d.known <= checked.patches
    requires report.outcome.Cached? ==> report.gameId !in started.cachedGames && report.gameId in checked.cachedGames
    requires report.outcome.AlreadyCached? ==> report.gameId in d.known
    requires report == Report(q.key, q.outcome, q.gameId)
    requires Asked(env, |d.requests|, q, first, checked) && env.limitAfter(|d.requests|).None? && StartPaced(d, q)
    requires e == d.(
      cached := if report.outcome.Cached? then d.cached + 1 else d.cached,
      noMatch := if report.outcome.NoMatch? then d.noMatch + 1 else d.noMatch,
      known := if report.outcome.Cached? then d.known + {report.gameId} else d.known,
      reports := d.reports + [report],
      requests := d.requests + [q])
    ensures ReportInv(e, keys, mine, s.queue) && Booked(e, env, first, s, mine)
  {
    hide Accounted, Count, GamesMatch, KeptBut, Followed, RequestMeans;
    FinalReport(d.reports, checked.queue, s.queue, mine, report, keys.Some?);
    RequestFollowed(d, e, env, q, first, checked, s);
    GamesMatchMore(d.reports, first, started, s, report);
    KeptMore(d.reports, first.queue, checked.queue, s.queue, mine, report);
  }

  /** A failed request leaves its row with one more attempt, or drops it. */
  lemma RowFailed(
      d: Drain, e: Drain, env: Environment, q: Request, first: Shared, checked: Shared, s: Shared,
      keys: Option<seq<int>>, mine: set<int>, rom: QueuedRom)
    requires ReportInv(d, keys, mine, checked.queue) && Booked(d, env, first, checked, mine)
    requires keys.Some? ==> rom.key in mine && Find(checked.queue, rom.key) == Some(rom)
    requires s == checked.(queue := s.queue) && Find(s.queue, rom.key) == rom.AfterFailedAttempt()
    requires forall k: int :: k != rom.key ==> Find(s.queue, k) == Find(checked.queue, k)
    requires |d.requests| + 1 == d.requested && d.rounds > 0 && StartPaced(d, q)
    requires e == d.(requests := d.requests + [q])
    requires Asked(env, |d.requests|, q, first, checked) && env.limitAfter(|d.requests|).None? && q.outcome.Failed?
    ensures Reported(e, keys, mine, s.queue) && GamesMatch(e.reports, first, s)
    ensures keys.Some? ==> FinallyKept(e.reports, RomFailed, first.queue, s.queue, mine)
    ensures EndFollowed(e, env, RomFailed, first, s)
  {
    hide Count, Followed, RequestMeans;
    EndsWithRequest(d, e, env, q, RomFailed, first, checked);
    FewerRowsReports(d, keys, mine, checked.queue, s.queue);
    if keys.Some? {
      NotReported(d.reports, checked.queue, mine, rom.key);
      assert FailedRow(rom, first.queue, s.queue);
    }
  }

  lemma NotReported(reports: seq<Report>, queue: seq<QueuedRom>, mine: set<int>, key: int)
    requires Accounted(reports, queue, mine) && Find(queue, key).Some?
    ensures !IsReported(reports, key)
  {
    forall i | 0 <= i < |reports|
      ensures reports[i].key != key
    {
      assert reports[i] in reports;
    }
  }

  /** The request that starts now keeps the pace and the bound. */
  lemma StartRequest(d: Drain, e: Drain, startedAt: int, checkedAt: int, now: int)
    requires PaceInv(d, startedAt, now) && LookedInTime(d, checkedAt, startedAt) && checkedAt <= now
    requires e == d.(requested := d.requested + 1, paced := false, nextRequestAt := now + PACE_MS,
                     checks := d.checks + [checkedAt], starts := d.starts + [now])
    requires d.requested >= BURST_GAMES ==> d.paced
    ensures PaceInv(e, startedAt, now)
  {
    RoomForOneMore(d.starts, startedAt, checkedAt);
    OneStartMore(d.checks, d.starts, startedAt, checkedAt, now);
    hide Paced, NonDecreasing, WithinBatch;
  }

  lemma OneStartMore(checks: seq<int>, starts: seq<int>, startedAt: int, checkedAt: int, now: int)
    requires Paced(starts) && NonDecreasing(starts) && WithinBatch(checks, starts, startedAt)
    requires startedAt <= checkedAt < startedAt + BATCH_MAX_MS && checkedAt <= now
    requires starts != [] ==> starts[|starts| - 1] <= checkedAt
    requires |starts| >= BURST_GAMES ==> starts[|starts| - 1] + PACE_MS <= checkedAt
    ensures Paced(starts + [now]) && NonDecreasing(starts + [now])
    ensures WithinBatch(checks + [checkedAt], starts + [now], startedAt)
  {
    assert forall i :: 0 <= i < |starts| ==> starts[i] <= checkedAt;
    assert |starts| >= BURST_GAMES ==> forall i :: 0 <= i < |starts| ==> starts[i] + PACE_MS <= checkedAt;
    LaterStart(starts, checkedAt, now);
    LaterCheck(checks, starts, startedAt, checkedAt, now);
  }

  lemma LaterStart(starts: seq<int>, checkedAt: int, now: int)
    requires Paced(starts) && NonDecreasing(starts) && checkedAt <= now
    requires forall i :: 0 <= i < |starts| ==> starts[i] <= checkedAt
    requires |starts| >= BURST_GAMES ==> forall i :: 0 <= i < |starts| ==> starts[i] + PACE_MS <= checkedAt
    ensures Paced(starts + [now]) && NonDecreasing(starts + [now])
  {
    var more := starts + [now];
    assert forall i :: 0 <= i < |starts| ==> more[i] == starts[i];
  }

  lemma LaterCheck(checks: seq<int>, starts: seq<int>, startedAt: int, checkedAt: int, now: int)
    requires WithinBatch(checks, starts, startedAt)
    requires startedAt <= checkedAt < startedAt + BATCH_MAX_MS && checkedAt <= now
    requires forall i :: 0 <= i < |starts| ==> starts[i] <= checkedAt
    requires |starts| >= BURST_GAMES ==> forall i :: 0 <= i < |starts| ==> starts[i] + PACE_MS <= checkedAt
    ensures WithinBatch(checks + [checkedAt], starts + [now], startedAt)
  {
    var more, later := checks + [checkedAt], starts + [now];
    assert forall i :: 0 <= i < |starts| ==> more[i] == checks[i] && later[i] == starts[i];
  }

  lemma LaterPace(d: Drain, startedAt: int, now: int, later: int)
    requires PaceInv(d, startedAt, now) && now <= later
    ensures PaceInv(d, startedAt, later)
  {
  }

  lemma SamePace(d: Drain, e: Drain, startedAt: int, now: int)
    requires PaceInv(d, startedAt, now)
    requires d
      == e.(cached := d.cached, noMatch := d.noMatch, known := d.known, reports := d.reports, requests := d.requests)
    ensures PaceInv(e, startedAt, now)
  {
    hide Paced, NonDecreasing, WithinBatch;
  }

  lemma SameQueueReports(d: Drain, e: Drain, keys: Option<seq<int>>, mine: set<int>, queue: seq<QueuedRom>)
    requires ReportInv(d, keys, mine, queue)
    requires e == d.(requested := e.requested, paced := e.paced, nextRequestAt := e.nextRequestAt, checks := e.checks,
                     starts := e.starts)
    ensures ReportInv(e, keys, mine, queue) && Reported(e, keys, mine, queue)
  {
  }

  lemma FewerRowsReports(
      e: Drain, keys: Option<seq<int>>, mine: set<int>, before: seq<QueuedRom>, after: seq<QueuedRom>)
    requires Reported(e, keys, mine, before)
    requires keys.Some? ==> forall k: int :: Find(before, k).None? ==> Find(after, k).None?
    ensures Reported(e, keys, mine, after)
  {
  }

  lemma OwnRemoval(s: Shared, t: Shared)
    requires t == s.(queue := t.queue)
    ensures Rely(s, t, {})
  {
  }

  /** Caches the game and charges it, both under the same lock. */
  method CacheAndCharge(
      storage: Storage, env: Environment, n: nat, key: int, used: int, round: nat, answeredAt: int,
      local: LocalAnswer, known: set<int>, mine: set<int>)
    returns (q: Request)
    requires storage.Valid() && storage.HasLock() && storage.Mine().phase.Checked? && storage.Mine().known == known
    requires local == AnswerOf(env.cache(round, key), answeredAt)
    modifies storage
    ensures storage.Valid() && old(storage.history) <= storage.history && storage.HasLock()
    ensures storage.Mine() == Drainer(known, if q.outcome.Cached? then Paid(q.gameId) else Ready)
    ensures Rely(old(storage.sys).s, storage.sys.s, {})
    ensures RowsKept(old(storage.sys).s.queue, storage.sys.s.queue, mine)
    ensures RequestMeans(env, n, q) && q.key == key && q.round == round && q.known == known && q.usedBefore == used
    ensures var s, t := old(storage.sys).s, storage.sys.s;
      && t.cachedGames == s.cachedGames + (if q.outcome.Cached? then [q.gameId] else [])
      && |t.charges| == |s.charges| + if q.outcome.Cached? then 1 else 0
    ensures q.outcome.Cached? ==> q.gameId !in known && q.gameId in storage.sys.s.patches
    ensures q.outcome.AlreadyCached? ==> q.gameId in known
  {
    hide RowsKept, Run, Decides, AnswerOf;
    ghost var before := storage.sys.s;
    q := CacheQueuedRom(storage, env, n, key, used, round, answeredAt, local, known, mine);
    QuietIsRely(before, storage.sys.s, mine);
    if q.outcome.Cached? {
      storage.StoreGame(q.gameId);
      ghost var cached := storage.sys.s;
      storage.Tick(mine);
      QuietTransitive(before, cached, storage.sys.s, mine);
      storage.ChargeGame();
    } else {
      storage.GiveUp();
    }
  }

  /** `record_failed_attempt`: the row is kept for another round, even if it was removed meanwhile, or
      dropped. */
  method RecordFailedAttempt(storage: Storage, rom: QueuedRom)
    requires storage.Valid() && storage.HasLock()
    modifies storage
    ensures storage.Valid() && old(storage.history) <= storage.history
    ensures Rely(old(storage.sys).s, storage.sys.s, {})
    ensures storage.sys == old(storage.sys).(s := old(storage.sys).s.(queue := storage.sys.s.queue))
    ensures Find(storage.sys.s.queue, rom.key)
      == if rom.attempts < 2 then Some(QueuedRom(rom.key, rom.attempts + 1)) else None
    ensures forall k: int :: k != rom.key ==> Find(storage.sys.s.queue, k) == Find(old(storage.sys).s.queue, k)
  {
    hide Run;
    match rom.AfterFailedAttempt() {
      case None => storage.Remove(rom.key);
      case Some(retry) => storage.Update(retry);
    }
  }

  /** What is left of the accounting when a drain ends. */
  predicate Reported(d: Drain, keys: Option<seq<int>>, mine: set<int>, queue: seq<QueuedRom>) {
    && d.cached == Count(d.reports, Cached) && d.noMatch == Count(d.reports, NoMatch)
    && (keys.Some? ==> Accounted(d.reports, queue, mine))
  }

  /** Another request, or the wait before one, or a row less of those there and to come. */
  predicate Progress(d: Drain, s: Shared, e: Drain, t: Shared) {
    || e.requested > d.requested
    || (e.requested == d.requested && !d.paced && e.paced)
    || (e.requested == d.requested && e.paced == d.paced && |t.queue| + t.toCome < |s.queue| + s.toCome)
  }

  /** `rate_limited`: until when a 429 pauses, if it does. */
  method CheckRateLimit(storage: Storage, limit: Option<int>, mine: set<int>) returns (limited: bool)
    requires storage.Valid()
    modifies storage
    ensures storage.Valid() && old(storage.history) <= storage.history
    ensures storage.sys == old(storage.sys).(s := storage.sys.s) && Quiet(old(storage.sys).s, storage.sys.s, mine)
    ensures limited <==> limit.Some?
    ensures limited ==> storage.sys.s.budget.pausedUntil >= limit.value
  {
    hide RowsKept;
    storage.Tick(mine);
    if limit.None? {
      return false;
    }
    storage.PauseUntil(limit.value);
    limited := true;
  }

  lemma FinalReport(
      reports: seq<Report>, before: seq<QueuedRom>, after: seq<QueuedRom>, mine: set<int>, r: Report, tracked: bool)
    requires !r.outcome.Failed? && !r.outcome.AuthRejected?
    requires tracked ==> Accounted(reports, before, mine) && r.key in mine && Find(before, r.key).Some?
    requires after == RemoveRow(before, r.key)
    ensures tracked ==> Accounted(reports + [r], after, mine)
    ensures forall o :: Count(reports + [r], o) == Count(reports, o) + if r.outcome == o then 1 else 0
  {
    if tracked {
      AddReport(reports, before, after, mine, r);
    }
    forall o
      ensures Count(reports + [r], o) == Count(reports, o) + if r.outcome == o then 1 else 0
    {
      CountNext(reports, r, o);
    }
  }

  /** `drain_cache_queue`: takes the lock, which it may wait for, or is busy. */
  method DrainCacheQueue(storage: Storage, env: Environment, wait: bool, keys: Option<seq<int>>, mine: set<int>)
    returns (r: DrainResult, d: Drain, ghost startedAt: int, ghost locked: Shared)
    requires storage.Valid() && !storage.HasLock()
    requires keys.Some? ==> forall k <- keys.value :: k in mine
    modifies storage
    ensures storage.Valid() && old(storage.history) <= storage.history && !storage.HasLock()
    ensures Rely(old(storage.sys).s, locked, mine) && Rely(locked, storage.sys.s, {})
    ensures GamesMatch(d.reports, old(storage.sys).s, storage.sys.s)
    ensures if r.stop.Busy? then (!wait || env.startPause) && d.reports == [] && d.requests == []
            else EndFollowed(d, env, r.stop, locked, storage.sys.s)
    ensures Paced(d.starts) && |d.starts| == d.requested <= 119
    ensures old(storage.sys).s.now <= startedAt && WithinBatch(d.checks, d.starts, startedAt)
    ensures keys.Some? ==> Accounted(d.reports, storage.sys.s.queue, mine)
    ensures keys.Some? ==> FinallyKept(d.reports, r.stop, old(storage.sys).s.queue, storage.sys.s.queue, mine)
    ensures r.cached == Count(d.reports, Cached) && r.noMatch == Count(d.reports, NoMatch)
    ensures StopMeans(r.stop, startedAt, storage.sys.s, keys)
  {
    hide Accounted, FinallyKept, GamesMatch, Run, EndFollowed;
    ghost var before := storage.sys.s;
    var ok := storage.TryLock(mine, wait, env.startPause);
    startedAt := storage.sys.s.now;
    locked := storage.sys.s;
    if !ok {
      NothingReported(before, storage.sys.s, mine);
      d := Drain(0, 0, 0, 0, false, {}, keys, [], 0, [], [], []);
      return DrainResult(0, 0, Busy), d, startedAt, locked;
    }
    r, d := DrainLocked(storage, env, keys, mine);
    assert !r.stop.Busy? by { NeverBusy(d, env, r.stop, locked, storage.sys.s); }
    storage.Unlock();
    RelyTransitive(before, locked, storage.sys.s, {});
    SinceBefore(before, locked, storage.sys.s, d.reports, r.stop, mine);
  }

  lemma NeverBusy(d: Drain, env: Environment, stop: DrainStop, first: Shared, s: Shared)
    requires EndFollowed(d, env, stop, first, s)
    ensures !stop.Busy?
  {
  }

  lemma NothingReported(before: Shared, s: Shared, mine: set<int>)
    requires Rely(before, s, mine)
    ensures GamesMatch([], before, s) && Accounted([], s.queue, mine)
    ensures FinallyKept([], Busy, before.queue, s.queue, mine)
  {
  }

  /** While waiting for the lock nothing changed for the rows of `mine`. */
  lemma SinceBefore(before: Shared, locked: Shared, s: Shared, reports: seq<Report>, stop: DrainStop, mine: set<int>)
    requires Rely(before, locked, mine) && GamesMatch(reports, locked, s)
    ensures GamesMatch(reports, before, s)
    ensures FinallyKept(reports, stop, locked.queue, s.queue, mine) ==>
      FinallyKept(reports, stop, before.queue, s.queue, mine)
  {
    if stop.RomFailed? && FinallyKept(reports, stop, locked.queue, s.queue, mine) {
      var failed :| failed in locked.queue && failed.key in mine && FailedRow(failed, locked.queue, s.queue)
        && KeptBut(reports, locked.queue, s.queue, mine, {failed.key});
      assert FailedRow(failed, before.queue, s.queue) && KeptBut(reports, before.queue, s.queue, mine, {failed.key});
    }
  }

  /** However a drain ended: a game that was named, not known yet, and whose patch was stored counts
      against the budget, and is reported as cached unless a 429 to that very request ended the drain. */
  lemma FetchedGamesAreReported(d: Drain, env: Environment, stop: DrainStop, first: Shared, s: Shared, n: nat)
    requires EndFollowed(d, env, stop, first, s) && n < |d.requests|
    requires var q := d.requests[n];
      && q.gameId !in q.known && env.fetch(n, q.gameId) == Fetched(true)
      && (q.local == Game(q.gameId) || (!q.local.Game? && Decides(env.hashes(n, q.key), q.askedAt, Found(q.gameId))))
    ensures var q := d.requests[n];
      && q.gameId in s.cachedGames && q.gameId !in first.cachedGames
      && (Report(q.key, Cached, q.gameId) in d.reports
          || (n == |d.requests| - 1 && stop.RateLimited? && env.limitAfter(n).Some?))
  {
    var q := d.requests[n];
    if !q.local.Game? {
      DecidesOne(env.hashes(n, q.key), q.askedAt, q.named, Found(q.gameId));
    }
    hide Decides, AnswerOf;
    assert Asked(env, n, q, first, s);
    assert q.outcome.Cached?;
  }

  /** Only a ROM that neither the cache nor the server gives a game for is reported as no match, and only
      games that were requested in this drain are reported as cached. */
  lemma ReportsAreTrue(d: Drain, env: Environment, stop: DrainStop, first: Shared, s: Shared, r: Report)
    requires EndFollowed(d, env, stop, first, s) && r in d.reports
    ensures r.outcome.NoMatch? ==>
      || (exists m, t :: 0 <= m < d.rounds && AnswerOf(env.cache(m, r.key), t) == NotListed)
      || (exists n, t :: 0 <= n < |d.requests| && Decides(env.hashes(n, r.key), t, NotFound))
    ensures r.outcome.Cached? ==>
      exists n :: 0 <= n < |d.requests| && d.requests[n].key == r.key && d.requests[n].gameId == r.gameId
                  && env.fetch(n, r.gameId).Fetched? && r.gameId in s.cachedGames
  {
    hide Decides, AnswerOf;
    assert Sourced(env, d.rounds, d.requests, r);
    if FromCache(env, d.rounds, r) {
      var m, t :| 0 <= m < d.rounds
        && match AnswerOf(env.cache(m, r.key), t)
           case NotListed => r.outcome.NoMatch? && r.gameId == 0
           case Game(gameId) => r.outcome.AlreadyCached? && r.gameId == gameId
           case Unknown => false;
      assert r.outcome.NoMatch? ==> AnswerOf(env.cache(m, r.key), t) == NotListed;
    } else {
      var n :| 0 <= n < |d.requests| && r == Report(d.requests[n].key, d.requests[n].outcome, d.requests[n].gameId);
      assert Asked(env, n, d.requests[n], first, s);
      if r.outcome.NoMatch? {
        assert Decides(env.hashes(n, r.key), d.requests[n].askedAt, NotFound);
      }
    }
  }
}
