/**
 One bulk run over a list of ROM paths (linux/raofflineproxy/smart_cache.py): every path is
 hashed and queued, then one drain works on what was queued. Hashing is a parameter: the queue
 key of a path, or nothing where it fails. The run is not aborted, and no other drainer touches
 the rows it waits for.
 */
module SmartCache {
  import opened Bytes
  import opened CacheQueue
  import opened DrainSystem
  import opened CacheDrain
  import opened RomLookup

  datatype Fate = FateOk | FateFail | FateQueued

  /** One call of `rom_result`. */
  datatype RomResult = RomResult(path: nat, fate: Fate)

  /** `waiting` and `order` are the source's ordered `paths_by_key`; `results` are the calls of
      `rom_result` in their order, and `fates` what they say. */
  datatype Bulk = Bulk(
    fates: map<nat, Fate>,
    results: seq<RomResult>,
    waiting: map<int, seq<nat>>,
    order: seq<int>,
    scanned: nat,
    skipped: nat,
    queued: nat)

  datatype SmartCacheResult = SmartCacheResult(scanned: nat, cached: nat, skipped: nat, queued: nat)

  type Hashing = seq<Option<int>>

  /** All a path hears. */
  function Heard(results: seq<RomResult>, path: nat): seq<Fate> {
    if results == [] then []
    else
      var last := results[|results| - 1];
      Heard(results[..|results| - 1], path) + if last.path == path then [last.fate] else []
  }

  function Given(fates: map<nat, Fate>, path: nat): seq<Fate> {
    if path in fates then [fates[path]] else []
  }

  /** The results of the paths of one row. */
  function ForPaths(paths: seq<nat>, fate: Fate): (r: seq<RomResult>)
    ensures |r| == |paths| && forall j :: 0 <= j < |r| ==> r[j] == RomResult(paths[j], fate)
  {
    seq(|paths|, j requires 0 <= j < |paths| => RomResult(paths[j], fate))
  }

  predicate Increasing(paths: seq<nat>) {
    forall i, j :: 0 <= i < j < |paths| ==> paths[i] < paths[j]
  }

  lemma {:induction false} HeardBoth(a: seq<RomResult>, b: seq<RomResult>, path: nat)
    ensures Heard(a + b, path) == Heard(a, path) + Heard(b, path)
  {
    if b == [] {
      assert a + b == a;
    } else {
      assert (a + b)[..|a + b| - 1] == a + b[..|b| - 1];
      HeardBoth(a, b[..|b| - 1], path);
    }
  }

  lemma {:induction false} HeardForPaths(paths: seq<nat>, fate: Fate, path: nat)
    requires Increasing(paths)
    ensures Heard(ForPaths(paths, fate), path) == if path in paths then [fate] else []
  {
    if paths != [] {
      var front, last := paths[..|paths| - 1], paths[|paths| - 1];
      assert paths == front + [last];
      assert ForPaths(paths, fate)[..|front|] == ForPaths(front, fate);
      HeardForPaths(front, fate, path);
    }
  }

  ghost predicate Waits(r: Bulk, keys: Hashing, i: nat)
    requires i < |keys|
  {
    keys[i].Some? && keys[i].value in r.waiting && i in r.waiting[keys[i].value]
  }

  /** The paths under a key have that key and no fate yet. */
  ghost predicate WaitingUnder(r: Bulk, keys: Hashing, key: int)
    requires key in r.waiting && r.scanned <= |keys|
  {
    && r.waiting[key] != [] && Increasing(r.waiting[key])
    && forall i <- r.waiting[key] :: i < r.scanned && keys[i] == Some(key) && i !in r.fates
  }

  /** Each path scanned so far has heard its one fate, or has heard nothing and waits under its key. */
  ghost predicate BulkInv(r: Bulk, keys: Hashing) {
    && r.scanned <= |keys|
    && (forall i <- r.fates :: i < r.scanned)
    && (forall k <- r.waiting :: WaitingUnder(r, keys, k))
    && (forall i :: 0 <= i < r.scanned ==> i in r.fates || Waits(r, keys, i))
    && (forall i: nat :: Heard(r.results, i) == Given(r.fates, i))
  }

  /** No two paths have the same key. */
  ghost predicate KeysDistinct(keys: Hashing) {
    forall i, j :: 0 <= i < j < |keys| && keys[i].Some? && keys[j].Some? ==> keys[i].value != keys[j].value
  }

  /** A path whose fate is known at once. */
  function Settle(r: Bulk, fate: Fate): Bulk {
    r.(fates := r.fates[r.scanned := fate], results := r.results + [RomResult(r.scanned, fate)],
       scanned := r.scanned + 1, skipped := r.skipped + 1)
  }

  /** A path that waits for its row. */
  function Wait(r: Bulk, key: int): Bulk {
    var before := if key in r.waiting then r.waiting[key] else [];
    r.(waiting := r.waiting[key := before + [r.scanned]],
       order := if key in r.waiting then r.order else r.order + [key],
       scanned := r.scanned + 1)
  }

  /** All paths of a key get their fate and stop waiting. */
  function Release(r: Bulk, key: int, fate: Fate): Bulk
    requires key in r.waiting
  {
    r.(fates := r.fates + (map i | i in r.waiting[key] :: fate), results := r.results + ForPaths(r.waiting[key], fate),
       waiting := r.waiting - {key})
  }

  lemma SettleKeeps(r: Bulk, keys: Hashing, fate: Fate)
    requires BulkInv(r, keys) && r.scanned < |keys|
    ensures BulkInv(Settle(r, fate), keys)
  {
    var to := Settle(r, fate);
    forall k | k in to.waiting
      ensures WaitingUnder(to, keys, k)
    {
      assert WaitingUnder(r, keys, k);
    }
    forall i | 0 <= i < to.scanned
      ensures i in to.fates || Waits(to, keys, i)
    {
      assert i < r.scanned ==> i in r.fates || Waits(r, keys, i);
    }
    forall i: nat
      ensures Heard(to.results, i) == Given(to.fates, i)
    {
      assert Heard(r.results, i) == Given(r.fates, i);
      assert to.results[..|r.results|] == r.results;
    }
  }

  lemma WaitKeeps(r: Bulk, keys: Hashing, key: int)
    requires BulkInv(r, keys) && r.scanned < |keys| && keys[r.scanned] == Some(key)
    ensures BulkInv(Wait(r, key), keys)
  {
    var to := Wait(r, key);
    forall k | k in to.waiting
      ensures WaitingUnder(to, keys, k)
    {
      assert k in r.waiting ==> WaitingUnder(r, keys, k);
      assert k in r.waiting ==> forall j :: 0 <= j < |r.waiting[k]| ==> r.waiting[k][j] in r.waiting[k];
    }
    forall i | 0 <= i < to.scanned
      ensures i in to.fates || Waits(to, keys, i)
    {
      assert i < r.scanned ==> i in r.fates || Waits(r, keys, i);
    }
    assert to.results == r.results && to.fates == r.fates;
  }

  lemma ReleaseKeeps(r: Bulk, keys: Hashing, key: int, fate: Fate)
    requires BulkInv(r, keys) && key in r.waiting
    ensures BulkInv(Release(r, key, fate), keys)
  {
    var to := Release(r, key, fate);
    forall i | 0 <= i < to.scanned
      ensures i in to.fates || Waits(to, keys, i)
    {
      assert i in r.fates || Waits(r, keys, i);
    }
    forall k | k in to.waiting
      ensures WaitingUnder(to, keys, k)
    {
      assert WaitingUnder(r, keys, k) && WaitingUnder(r, keys, key);
    }
    assert WaitingUnder(r, keys, key);
    forall i: nat
      ensures Heard(to.results, i) == Given(to.fates, i)
    {
      assert Heard(r.results, i) == Given(r.fates, i);
      HeardBoth(r.results, ForPaths(r.waiting[key], fate), i);
      HeardForPaths(r.waiting[key], fate, i);
    }
  }

  lemma CountsKeepBulk(r: Bulk, to: Bulk, keys: Hashing)
    requires BulkInv(r, keys) && to == r.(skipped := to.skipped, queued := to.queued)
    ensures BulkInv(to, keys)
  {
    forall k | k in to.waiting
      ensures WaitingUnder(to, keys, k)
    {
      assert WaitingUnder(r, keys, k);
    }
    forall i | 0 <= i < to.scanned
      ensures i in to.fates || Waits(to, keys, i)
    {
      assert i in r.fates || Waits(r, keys, i);
    }
    assert to.results == r.results && to.fates == r.fates;
  }

  /** By how much the paths of reported rows outnumber the reports. */
  function Extra(waiting: map<int, seq<nat>>, reports: seq<Report>): int
    requires forall p <- reports :: p.key in waiting
  {
    if reports == [] then 0
    else
      var front, last := reports[..|reports| - 1], reports[|reports| - 1];
      assert forall p <- front :: p in reports;
      Extra(waiting, front) + |waiting[last.key]| - 1
  }

  // Whose word a fate is.

  /** The fate of the paths of a row that a drain reported. */
  function FateOf(outcome: RomOutcome): Fate {
    if outcome.Cached? || outcome.AlreadyCached? then FateOk else FateFail
  }

  /** The fate of the paths of a row that it did not report. */
  function RowFate(queue: seq<QueuedRom>, key: int): Fate {
    if Find(queue, key).Some? then FateQueued else FateFail
  }

  /** A fate once given stays, and one given later is for a path whose row was reported. */
  ghost predicate PathFollows(
      start: map<nat, Fate>, fates: map<nat, Fate>, keys: Hashing, reports: seq<Report>, i: nat)
  {
    if i in start then i in fates && fates[i] == start[i]
    else
      && (i in fates ==> i < |keys| && keys[i].Some? && IsReported(reports, keys[i].value))
      && forall j :: i < |keys| && 0 <= j < |reports| && keys[i] == Some(reports[j].key) ==>
           i in fates && fates[i] == FateOf(reports[j].outcome)
  }

  ghost predicate FollowReports(start: map<nat, Fate>, fates: map<nat, Fate>, keys: Hashing, reports: seq<Report>) {
    forall i: nat {:trigger PathFollows(start, fates, keys, reports, i)} :: PathFollows(start, fates, keys, reports, i)
  }

  /** Fates once given stay, and those given later are for what became of the row. */
  ghost predicate FollowRows(start: map<nat, Fate>, fates: map<nat, Fate>, keys: Hashing, queue: seq<QueuedRom>) {
    && (forall i <- start :: i in fates && fates[i] == start[i])
    && (forall i <- fates :: i !in start ==> i < |keys| && keys[i].Some? && fates[i] == RowFate(queue, keys[i].value))
  }

  lemma ReleaseFollowsRows(r: Bulk, keys: Hashing, key: int, start: map<nat, Fate>, queue: seq<QueuedRom>)
    requires BulkInv(r, keys) && key in r.waiting && FollowRows(start, r.fates, keys, queue)
    ensures FollowRows(start, Release(r, key, RowFate(queue, key)).fates, keys, queue)
  {
    assert WaitingUnder(r, keys, key);
  }

  lemma ReleaseFollowsReports(r: Bulk, keys: Hashing, start: map<nat, Fate>, reports: seq<Report>, n: nat)
    requires BulkInv(r, keys) && r.scanned == |keys| && DistinctKeys(reports)
    requires n < |reports| && reports[n].key in r.waiting
    requires FollowReports(start, r.fates, keys, reports[..n])
    ensures FollowReports(start, Release(r, reports[n].key, FateOf(reports[n].outcome)).fates, keys, reports[..n + 1])
  {
    var to, after := Release(r, reports[n].key, FateOf(reports[n].outcome)).fates, reports[..n + 1];
    assert after == reports[..n] + [reports[n]];
    forall i: nat
      ensures PathFollows(start, to, keys, after, i)
    {
      assert PathFollows(start, r.fates, keys, reports[..n], i);
      assert !IsReported(reports[..n], reports[n].key);
      PathIsReleased(r, keys, start, reports[..n], reports[n], i);
    }
  }

  lemma PathIsReleased(r: Bulk, keys: Hashing, start: map<nat, Fate>, before: seq<Report>, p: Report, i: nat)
    requires BulkInv(r, keys) && r.scanned == |keys| && p.key in r.waiting && !IsReported(before, p.key)
    requires PathFollows(start, r.fates, keys, before, i)
    ensures PathFollows(start, Release(r, p.key, FateOf(p.outcome)).fates, keys, before + [p], i)
  {
    assert WaitingUnder(r, keys, p.key);
    assert i < |keys| ==> i in r.fates || Waits(r, keys, i);
    hide BulkInv;
    ReportedMore(before, p);
    var to := Release(r, p.key, FateOf(p.outcome));
    if i !in start && i < |keys| {
      forall j | 0 <= j < |before + [p]| && keys[i] == Some((before + [p])[j].key)
        ensures i in to.fates && to.fates[i] == FateOf((before + [p])[j].outcome)
      {
        if j < |before| {
          assert (before + [p])[j] == before[j];
        }
      }
    }
  }

  lemma ReportedMore(reports: seq<Report>, p: Report)
    ensures forall key :: IsReported(reports + [p], key) <==> IsReported(reports, key) || key == p.key
  {
    var more := reports + [p];
    assert more[|reports|] == p && forall j :: 0 <= j < |reports| ==> more[j] == reports[j];
  }

  // The run.

  /** What the cache holds for the hashes of a path when it may be queued, and when it was not. */
  datatype PathCache = PathCache(entries: seq<CachedLookup>, again: seq<CachedLookup>)

  /** The cache says there is no match, or names a game that is known. */
  predicate AnsweredBy(answer: LocalAnswer, known: set<int>) {
    answer.NotListed? || (answer.Game? && answer.gameId in known)
  }

  /** `enqueue_rom_if_needed`: queues the ROM unless the local cache answers it. Others may drain
      meanwhile, but not the rows of `mine`. */
  method EnqueueRomIfNeeded(
      storage: Storage, key: int, entries: seq<CachedLookup>, known: set<int>, mine: set<int>)
    returns (waiting: bool, ghost at: int)
    requires storage.Valid() && !storage.HasLock()
    modifies storage
    ensures storage.Valid() && !storage.HasLock() && old(storage.history) <= storage.history
    ensures Rely(old(storage.sys).s, storage.sys.s, mine - {key})
    ensures waiting <==> !AnsweredBy(AnswerOf(entries, at), known)
    ensures waiting ==> Find(storage.sys.s.queue, key).Some?
    ensures key in mine && !waiting ==> Find(storage.sys.s.queue, key) == Find(old(storage.sys).s.queue, key)
  {
    hide Run;
    storage.OthersRun(0, mine);
    var rom := QueuedRom(key, 0);
    at := storage.sys.s.now;
    var local := AnswerLocally(entries, storage.sys.s.now);
    if local.NotListed? {
      return false, at;
    }
    if local.Game? && local.gameId in known {
      return false, at;
    }
    if Find(storage.sys.s.queue, key).None? {
      storage.Add(rom);
    }
    waiting := true;
  }

  /** A path that cannot be hashed fails; another is settled at once when the cache answers it: it has
      failed if the cache then denies a match, and is done otherwise. */
  ghost predicate HashedAs(
      keys: Hashing, caches: nat -> PathCache, known: set<int>, fates: map<nat, Fate>, i: nat)
    requires i < |keys|
  {
    if keys[i].None? then i in fates && fates[i] == FateFail
    else exists t, u :: AnsweredAs(AnswerOf(caches(i).entries, t), AnswerOf(caches(i).again, u), known, fates, i)
  }

  predicate AnsweredAs(first: LocalAnswer, again: LocalAnswer, known: set<int>, fates: map<nat, Fate>, i: nat) {
    && (i in fates <==> AnsweredBy(first, known))
    && (i in fates ==> fates[i] == if again.NotListed? then FateFail else FateOk)
  }

  /** The keys of all paths. */
  function Keys(keys: Hashing): set<int> {
    set i | 0 <= i < |keys| && keys[i].Some? :: keys[i].value
  }

  /** The hashing loop: afterwards every path has failed, was answered or waits for its row. */
  method HashAll(storage: Storage, keys: Hashing, caches: nat -> PathCache) returns (r: Bulk)
    requires storage.Valid() && !storage.HasLock()
    modifies storage
    ensures storage.Valid() && !storage.HasLock() && old(storage.history) <= storage.history
    ensures BulkInv(r, keys) && r.scanned == |keys| && |r.results| == r.skipped && r.queued == 0
    ensures forall i <- r.fates :: i < |keys|
    ensures forall i :: 0 <= i < |keys| ==> HashedAs(keys, caches, old(storage.sys).s.patches, r.fates, i)
    ensures forall k <- r.waiting :: k in Keys(keys) && Find(storage.sys.s.queue, k).Some?
    ensures forall k :: k in r.order <==> k in r.waiting
  {
    hide BulkInv, Run, HashedAs, AnswerOf;
    var known := storage.sys.s.patches;
    var mine := Keys(keys);
    r := Bulk(map[], [], map[], [], 0, 0, 0);
    StartBulk(keys);
    for i := 0 to |keys|
      invariant storage.Valid() && !storage.HasLock() && old(storage.history) <= storage.history
      invariant BulkInv(r, keys) && r.scanned == i && |r.results| == r.skipped && r.queued == 0
      invariant forall j <- r.fates :: j < i
      invariant forall j :: 0 <= j < i ==> HashedAs(keys, caches, known, r.fates, j)
      invariant forall k <- r.waiting :: k in mine && Find(storage.sys.s.queue, k).Some?
      invariant forall k :: k in r.order <==> k in r.waiting
    {
      ghost var fates := r.fates;
      if keys[i].None? {
        SettleKeeps(r, keys, FateFail);
        r := Settle(r, FateFail);
        HashedNow(keys, caches, known, fates, r.fates, i, 0, 0);
      } else {
        var waiting, at := EnqueueRomIfNeeded(storage, keys[i].value, caches(i).entries, known, mine);
        if waiting {
          WaitKeeps(r, keys, keys[i].value);
          r := Wait(r, keys[i].value);
          HashedNow(keys, caches, known, fates, r.fates, i, at, 0);
        } else {
          ghost var later := storage.sys.s.now;
          var again := AnswerLocally(caches(i).again, storage.sys.s.now);
          var fate := if again.NotListed? then FateFail else FateOk;
          SettleKeeps(r, keys, fate);
          r := Settle(r, fate);
          HashedNow(keys, caches, known, fates, r.fates, i, at, later);
        }
      }
    }
  }

  /** What was hashed before stays as it was, and path `i` is as it is now. */
  lemma HashedNow(
      keys: Hashing, caches: nat -> PathCache, known: set<int>, before: map<nat, Fate>, fates: map<nat, Fate>, i: nat,
      t: int, u: int)
    requires i < |keys| && (forall j <- before :: j < i)
    requires forall j :: 0 <= j < i ==> HashedAs(keys, caches, known, before, j)
    requires fates == if i in fates then before[i := fates[i]] else before
    requires if keys[i].None? then i in fates && fates[i] == FateFail
             else AnsweredAs(AnswerOf(caches(i).entries, t), AnswerOf(caches(i).again, u), known, fates, i)
    ensures forall j :: 0 <= j < i + 1 ==> HashedAs(keys, caches, known, fates, j)
  {
    hide AnswerOf, AnsweredBy;
    assert HashedAs(keys, caches, known, fates, i);
    forall j | 0 <= j < i
      ensures HashedAs(keys, caches, known, fates, j)
    {
      HashedKept(keys, caches, known, before, fates, j);
    }
  }

  lemma HashedKept(
      keys: Hashing, caches: nat -> PathCache, known: set<int>, before: map<nat, Fate>, fates: map<nat, Fate>, j: nat)
    requires j < |keys| && HashedAs(keys, caches, known, before, j)
    requires (j in fates <==> j in before) && (j in fates ==> fates[j] == before[j])
    ensures HashedAs(keys, caches, known, fates, j)
  {
    hide AnswerOf, AnsweredBy;
    if keys[j].Some? {
      var t, u :| AnsweredAs(AnswerOf(caches(j).entries, t), AnswerOf(caches(j).again, u), known, before, j);
      assert AnsweredAs(AnswerOf(caches(j).entries, t), AnswerOf(caches(j).again, u), known, fates, j);
    }
  }

  lemma StartBulk(keys: Hashing)
    ensures BulkInv(Bulk(map[], [], map[], [], 0, 0, 0), keys)
  {
  }

  /** `on_outcome` for each report of the drain. */
  method ApplyReports(keys: Hashing, start: Bulk, reports: seq<Report>) returns (r: Bulk)
    requires BulkInv(start, keys) && start.scanned == |keys| && |start.results| == start.skipped
    requires DistinctKeys(reports) && forall p <- reports :: p.key in start.waiting
    ensures BulkInv(r, keys) && r.scanned == |keys|
    ensures |r.results| == Count(reports, Cached) + r.skipped + Extra(start.waiting, reports)
    ensures r.queued == start.queued && r.order == start.order && r.waiting.Keys <= start.waiting.Keys
    ensures FollowReports(start.fates, r.fates, keys, reports)
  {
    hide BulkInv, Count, FollowReports;
    r := start;
    NoReports(start.waiting);
    NothingFollows(start.fates, keys);
    assert reports[..0] == [];
    for n := 0 to |reports|
      invariant BulkInv(r, keys) && r.scanned == |keys|
      invariant forall p <- reports[..n] :: p in reports
      invariant |r.results| == Count(reports[..n], Cached) + r.skipped + Extra(start.waiting, reports[..n])
      invariant r.queued == start.queued && r.order == start.order
      invariant forall k <- r.waiting :: k in start.waiting && r.waiting[k] == start.waiting[k]
      invariant FollowReports(start.fates, r.fates, keys, reports[..n])
      invariant forall j :: n <= j < |reports| ==> reports[j].key in r.waiting
    {
      var p := reports[n];
      var fate := FateOf(p.outcome);
      ReleaseKeeps(r, keys, p.key, fate);
      ReleaseFollowsReports(r, keys, start.fates, reports, n);
      OneReportMore(start.waiting, reports, n);
      r := Release(r, p.key, fate);
      ghost var released := r;
      if !p.outcome.Cached? {
        r := r.(skipped := r.skipped + 1);
      }
      CountsKeepBulk(released, r, keys);
    }
    assert reports[..|reports|] == reports;
    assert forall k :: k in r.waiting.Keys ==> k in start.waiting.Keys;
  }

  lemma NoReports(waiting: map<int, seq<nat>>)
    ensures Count([], Cached) == 0 && Extra(waiting, []) == 0
  {
  }

  lemma OneReportMore(waiting: map<int, seq<nat>>, reports: seq<Report>, n: nat)
    requires n < |reports| && forall p <- reports :: p.key in waiting
    ensures forall p <- reports[..n] :: p in reports
    ensures forall p <- reports[..n + 1] :: p in reports
    ensures Count(reports[..n + 1], Cached) == Count(reports[..n], Cached) + if reports[n].outcome.Cached? then 1 else 0
    ensures Extra(waiting, reports[..n + 1]) == Extra(waiting, reports[..n]) + |waiting[reports[n].key]| - 1
  {
    assert reports[..n + 1][..n] == reports[..n];
  }

  lemma NothingFollows(fates: map<nat, Fate>, keys: Hashing)
    ensures FollowReports(fates, fates, keys, [])
  {
  }

  /** The last loop: a path whose row is still there is queued, any other failed. */
  method SettleRest(storage: Storage, keys: Hashing, start: Bulk) returns (r: Bulk)
    requires BulkInv(start, keys) && start.scanned == |keys|
    requires forall k <- start.waiting :: k in start.order
    ensures FollowRows(start.fates, r.fates, keys, storage.sys.s.queue)
    ensures BulkInv(r, keys) && r.scanned == |keys| && r.waiting == map[]
    ensures |r.results| - r.skipped - r.queued == |start.results| - start.skipped - start.queued
  {
    hide BulkInv, RowFate, FollowRows;
    r := start;
    NothingChanged(start.fates, keys, storage.sys.s.queue);
    for n := 0 to |start.order|
      invariant BulkInv(r, keys) && r.scanned == |keys|
      invariant |r.results| - r.skipped - r.queued == |start.results| - start.skipped - start.queued
      invariant FollowRows(start.fates, r.fates, keys, storage.sys.s.queue)
      invariant forall k <- r.waiting :: k in start.order[n..]
    {
      var key := start.order[n];
      if key in r.waiting {
        var paths := |r.waiting[key]|;
        var present := Find(storage.sys.s.queue, key).Some?;
        var fate := if present then FateQueued else FateFail;
        ReleaseKeeps(r, keys, key, fate);
        ReleaseFollowsRows(r, keys, key, start.fates, storage.sys.s.queue);
        RowFateIs(storage.sys.s.queue, key);
        r := Release(r, key, fate);
        ghost var released := r;
        if present {
          r := r.(queued := r.queued + paths);
        } else {
          r := r.(skipped := r.skipped + paths);
        }
        CountsKeepBulk(released, r, keys);
      }
      assert start.order[n..] == [key] + start.order[n + 1..];
    }
    assert start.order[|start.order|..] == [];
    assert forall k :: k !in r.waiting;
  }

  lemma NothingChanged(fates: map<nat, Fate>, keys: Hashing, queue: seq<QueuedRom>)
    ensures FollowRows(fates, fates, keys, queue)
  {
  }

  lemma RowFateIs(queue: seq<QueuedRom>, key: int)
    ensures RowFate(queue, key) == if Find(queue, key).Some? then FateQueued else FateFail
  {
  }

  predicate RowPaths(paths: seq<nat>, key: int, early: map<nat, Fate>, keys: Hashing) {
    && paths != [] && Increasing(paths)
    && forall j :: 0 <= j < |paths| ==> paths[j] < |keys| && keys[paths[j]] == Some(key) && paths[j] !in early
  }

  /** Which paths wait for which row once hashing is done. */
  ghost predicate LatePaths(waiting: map<int, seq<nat>>, early: map<nat, Fate>, keys: Hashing) {
    && (forall k <- waiting :: RowPaths(waiting[k], k, early, keys))
    && (forall i :: 0 <= i < |keys| && i !in early ==>
          keys[i].Some? && keys[i].value in waiting && i in waiting[keys[i].value])
  }

  /** A drain, why it stopped, and the shared state when it had the lock at first and at its end. */
  datatype Drained = Drained(d: Drain, stop: DrainStop, first: Shared, last: Shared)

  /**
   `run_cache_paths`: `results` are the calls of `rom_result`. `early` are the paths settled while
   hashing, `waiting` the others by row, and `reports` what the drain reported.
   */
  method RunCachePaths(
      storage: Storage, env: Environment, keys: Hashing, caches: nat -> PathCache, cacheNow: bool)
    returns (
      result: SmartCacheResult, results: seq<RomResult>, ghost fates: map<nat, Fate>, ghost early: map<nat, Fate>,
      ghost waiting: map<int, seq<nat>>, ghost reports: seq<Report>, ghost drain: Option<Drained>)
    requires storage.Valid() && !storage.HasLock()
    modifies storage
    ensures storage.Valid() && !storage.HasLock() && old(storage.history) <= storage.history
    // Every path hears one result, and nobody else any.
    ensures |results| == |keys| && forall i: nat :: i in fates <==> i < |keys|
    ensures forall i: nat :: Heard(results, i) == Given(fates, i)
    // Hashing settles exactly what cannot be hashed or is answered by the cache.
    ensures forall i <- early :: i in fates && fates[i] == early[i]
    ensures forall i :: 0 <= i < |keys| ==> HashedAs(keys, caches, old(storage.sys).s.patches, early, i)
    // What waits is drained, if at all now, and the reports are those of that drain.
    ensures drain.Some? <==> cacheNow && waiting != map[]
    ensures reports == (if drain.Some? then drain.value.d.reports else [])
    ensures drain.Some? && !drain.value.stop.Busy? ==>
      EndFollowed(drain.value.d, env, drain.value.stop, drain.value.first, drain.value.last)
    ensures drain.Some? && drain.value.stop.Busy? ==> env.startPause && reports == []
    // Then a path follows what was reported for its row, or what became of it.
    ensures forall i <- fates ::
      i !in early ==> keys[i].Some? && FateIs(fates[i], reports, storage.sys.s.queue, keys[i].value)
    // A report counts once, however many paths wait for its row.
    ensures LatePaths(waiting, early, keys) && DistinctKeys(reports) && forall p <- reports :: p.key in waiting
    ensures result.scanned == |keys| && result.cached == Count(reports, Cached)
    ensures result.scanned == result.cached + result.skipped + result.queued + Extra(waiting, reports)
    ensures KeysDistinct(keys) ==> result.scanned == result.cached + result.skipped + result.queued
  {
    hide KeysDistinct, BulkInv, FollowReports, FollowRows, GamesMatch, FinallyKept, Accounted, Run, LatePaths,
      EndFollowed, HashedAs;
    var r := HashAll(storage, keys, caches);
    BulkFates(r, keys);
    HashedPaths(r, keys);
    early, waiting, reports, drain := r.fates, r.waiting, [], None;
    NoReports(waiting);
    NothingFollows(early, keys);
    var cached := 0;
    if cacheNow && r.waiting != map[] {
      var drained, d, _, first := DrainCacheQueue(storage, env, true, Some(r.order), r.waiting.Keys);
      reports, drain := d.reports, Some(Drained(d, drained.stop, first, storage.sys.s));
      AccountedKeys(reports, storage.sys.s.queue, r.waiting.Keys);
      cached := drained.cached;
      r := ApplyReports(keys, r, d.reports);
    }
    ghost var drainedFates := r.fates;
    storage.OthersRun(0, r.waiting.Keys);
    r := SettleRest(storage, keys, r);
    BulkFates(r, keys);
    AllSettled(r, keys);
    FatesAre(early, drainedFates, r.fates, keys, reports, storage.sys.s.queue);
    ExtraNone(waiting, early, keys, reports);
    fates, results := r.fates, r.results;
    result := SmartCacheResult(r.scanned, cached, r.skipped, r.queued);
  }

  lemma HashedPaths(r: Bulk, keys: Hashing)
    requires BulkInv(r, keys) && r.scanned == |keys|
    ensures LatePaths(r.waiting, r.fates, keys)
  {
    forall k <- r.waiting
      ensures RowPaths(r.waiting[k], k, r.fates, keys)
    {
      assert WaitingUnder(r, keys, k);
      assert forall j :: 0 <= j < |r.waiting[k]| ==> r.waiting[k][j] in r.waiting[k];
    }
    forall i | 0 <= i < |keys| && i !in r.fates
      ensures keys[i].Some? && keys[i].value in r.waiting && i in r.waiting[keys[i].value]
    {
      assert Waits(r, keys, i);
    }
  }

  /** With distinct keys every row has one path. */
  lemma {:induction false} ExtraNone(
      waiting: map<int, seq<nat>>, early: map<nat, Fate>, keys: Hashing, reports: seq<Report>)
    requires LatePaths(waiting, early, keys) && forall p <- reports :: p.key in waiting
    ensures KeysDistinct(keys) ==> Extra(waiting, reports) == 0
  {
    if KeysDistinct(keys) && reports != [] {
      var front, last := reports[..|reports| - 1], reports[|reports| - 1];
      assert forall p <- front :: p in reports;
      ExtraNone(waiting, early, keys, front);
      OnePath(waiting, early, keys, last.key);
    }
  }

  lemma OnePath(waiting: map<int, seq<nat>>, early: map<nat, Fate>, keys: Hashing, key: int)
    requires LatePaths(waiting, early, keys) && key in waiting && KeysDistinct(keys)
    ensures |waiting[key]| == 1
  {
    var paths := waiting[key];
    assert RowPaths(paths, key, early, keys);
    var first, last := paths[0], paths[|paths| - 1];
    assert keys[first] == Some(key) && keys[last] == Some(key);
    assert first == last;
  }

  /** A path's fate is what was reported for its row, or what became of it. */
  ghost predicate FateIs(fate: Fate, reports: seq<Report>, queue: seq<QueuedRom>, key: int) {
    && (forall j :: 0 <= j < |reports| && reports[j].key == key ==>
          && (fate == FateOk <==> reports[j].outcome == Cached || reports[j].outcome == AlreadyCached)
          && (fate == FateFail <==> reports[j].outcome != Cached && reports[j].outcome != AlreadyCached))
    && (!IsReported(reports, key) ==> fate == if Find(queue, key).Some? then FateQueued else FateFail)
  }

  lemma FatesAre(
      early: map<nat, Fate>, mid: map<nat, Fate>, fates: map<nat, Fate>, keys: Hashing, reports: seq<Report>,
      queue: seq<QueuedRom>)
    requires FollowReports(early, mid, keys, reports) && FollowRows(mid, fates, keys, queue)
    ensures forall i <- early :: i in fates && fates[i] == early[i]
    ensures forall i <- fates ::
      i !in early ==> i < |keys| && keys[i].Some? && FateIs(fates[i], reports, queue, keys[i].value)
  {
    forall i <- early
      ensures i in fates && fates[i] == early[i]
    {
      assert PathFollows(early, mid, keys, reports, i);
    }
    forall i <- fates | i !in early
      ensures i < |keys| && keys[i].Some? && FateIs(fates[i], reports, queue, keys[i].value)
    {
      assert PathFollows(early, mid, keys, reports, i);
      assert i in mid ==> i < |keys| && keys[i].Some? && IsReported(reports, keys[i].value);
      if IsReported(reports, keys[i].value) {
        var j :| 0 <= j < |reports| && reports[j].key == keys[i].value;
        assert keys[i] == Some(reports[j].key);
      }
    }
  }

  lemma BulkFates(r: Bulk, keys: Hashing)
    requires BulkInv(r, keys)
    ensures forall i <- r.fates :: i < |keys|
    ensures forall i: nat :: Heard(r.results, i) == Given(r.fates, i)
  {
  }

  lemma AllSettled(r: Bulk, keys: Hashing)
    requires BulkInv(r, keys) && r.scanned == |keys| && r.waiting == map[]
    ensures forall i: nat :: i < |keys| ==> i in r.fates
    ensures |r.results| == |keys|
  {
    forall i: nat | i < |keys|
      ensures i in r.fates
    {
      assert !Waits(r, keys, i);
    }
    forall j | 0 <= j < |r.results|
      ensures r.results[j].path < |keys|
    {
      HeardMember(r.results, j);
      assert Heard(r.results, r.results[j].path) == Given(r.fates, r.results[j].path);
    }
    AllHeard(r.results, |keys|);
    OneEach(r, |keys|);
  }

  lemma {:induction false} HeardMember(results: seq<RomResult>, j: nat)
    requires j < |results|
    ensures Heard(results, results[j].path) != []
  {
    var front := results[..|results| - 1];
    if j < |front| {
      HeardMember(front, j);
      assert front[j] == results[j];
    }
  }

  /** How much the first `n` paths hear. */
  function HeardInAll(results: seq<RomResult>, n: nat): nat {
    if n == 0 then 0 else HeardInAll(results, n - 1) + |Heard(results, n - 1)|
  }

  lemma {:induction false} AllHeard(results: seq<RomResult>, n: nat)
    requires forall j :: 0 <= j < |results| ==> results[j].path < n
    ensures HeardInAll(results, n) == |results|
  {
    if results == [] {
      NothingHeard(n);
    } else {
      var front, last := results[..|results| - 1], results[|results| - 1];
      assert forall j :: 0 <= j < |front| ==> front[j] == results[j];
      AllHeard(front, n);
      OneMoreHeard(front, last, n);
      assert results == front + [last];
    }
  }

  lemma {:induction false} NothingHeard(n: nat)
    ensures HeardInAll([], n) == 0
  {
    if n > 0 {
      NothingHeard(n - 1);
    }
  }

  lemma {:induction false} OneMoreHeard(front: seq<RomResult>, last: RomResult, n: nat)
    ensures HeardInAll(front + [last], n) == HeardInAll(front, n) + if last.path < n then 1 else 0
  {
    if n > 0 {
      OneMoreHeard(front, last, n - 1);
      assert (front + [last])[..|front|] == front;
    }
  }

  lemma {:induction false} OneEach(r: Bulk, n: nat)
    requires forall i: nat :: Heard(r.results, i) == Given(r.fates, i)
    requires forall i: nat :: i < n ==> i in r.fates
    ensures HeardInAll(r.results, n) == n
  {
    if n > 0 {
      OneEach(r, n - 1);
      assert Heard(r.results, n - 1) == Given(r.fates, n - 1);
    }
  }

  lemma AccountedKeys(reports: seq<Report>, queue: seq<QueuedRom>, mine: set<int>)
    requires Accounted(reports, queue, mine)
    ensures DistinctKeys(reports) && forall p <- reports :: p.key in mine
  {
  }
}
