/**
 The queue of ROMs to cache and the state that all drainers share
 (linux/raofflineproxy/cache_queue.py). Rows are kept oldest first, as they are served.
 */
module CacheQueue {
  import opened Bytes
  import opened CacheBudget

  const MAX_ATTEMPTS := 3

  /** `key` stands for the queue key made of the ROM's first hash. */
  datatype QueuedRom = QueuedRom(key: int, attempts: nat) {
    function AfterFailedAttempt(): Option<QueuedRom> {
      if attempts + 1 < MAX_ATTEMPTS then Some(this.(attempts := attempts + 1)) else None
    }
  }

  function Find(queue: seq<QueuedRom>, key: int): (r: Option<QueuedRom>)
    ensures r.Some? ==> r.value in queue && r.value.key == key
    ensures r.None? ==> forall rom <- queue :: rom.key != key
  {
    if queue == [] then None
    else if queue[0].key == key then Some(queue[0])
    else Find(queue[1..], key)
  }

  function RemoveRow(queue: seq<QueuedRom>, key: int): (r: seq<QueuedRom>)
    ensures Find(r, key).None?
    ensures forall k :: k != key ==> Find(r, k) == Find(queue, k)
    ensures |r| <= |queue| && (Find(queue, key).Some? ==> |r| < |queue|)
  {
    if queue == [] then []
    else if queue[0].key == key then RemoveRow(queue[1..], key)
    else [queue[0]] + RemoveRow(queue[1..], key)
  }

  lemma {:induction false} FindAppended(queue: seq<QueuedRom>, rom: QueuedRom)
    ensures forall k: int ::
      Find(queue + [rom], k) == if Find(queue, k).None? && k == rom.key then Some(rom) else Find(queue, k)
  {
    if queue != [] {
      assert (queue + [rom])[1..] == queue[1..] + [rom];
      FindAppended(queue[1..], rom);
    }
  }

  /** `update`: the row keeps its place, and comes back at the end if it was removed meanwhile. */
  function UpdateRow(queue: seq<QueuedRom>, rom: QueuedRom): (r: seq<QueuedRom>)
    ensures |r| == |queue| + if Find(queue, rom.key).Some? then 0 else 1
    ensures forall k :: k != rom.key ==> Find(r, k) == Find(queue, k)
    ensures Find(r, rom.key) == Some(rom)
  {
    if queue == [] then [rom]
    else if queue[0].key == rom.key then [rom] + queue[1..]
    else [queue[0]] + UpdateRow(queue[1..], rom)
  }

  /**
   What all drainers share. `charges` and `cachedGames` record, in order, every budget charge and
   the game it was for; `patches` are the games whose patch is stored. `toCome` bounds the rows
   that will still be added: there are finitely many, however many that is.
   */
  datatype Shared = Shared(
    budget: BudgetWindow,
    patches: set<int>,
    queue: seq<QueuedRom>,
    now: int,
    charges: seq<Charged>,
    cachedGames: seq<int>,
    toCome: nat)

  predicate NoDuplicates(games: seq<int>) {
    forall i, j :: 0 <= i < j < |games| ==> games[i] != games[j]
  }

  /** No game was cached or charged twice, and the stored budget is the one the charges make. */
  predicate Inv(s: Shared) {
    && Legal(s.charges) && LastAt(s.charges) <= s.now
    && s.budget == Replay(s.charges).(pausedUntil := s.budget.pausedUntil)
    && |s.cachedGames| == |s.charges|
    && NoDuplicates(s.cachedGames)
    && forall g <- s.cachedGames :: g in s.patches
  }

  /** Whatever became of the others, the rows of `mine` are as they were. */
  predicate RowsKept(before: seq<QueuedRom>, after: seq<QueuedRom>, mine: set<int>) {
    forall k <- mine :: Find(after, k) == Find(before, k)
  }

  /** What can happen at any time, whoever has the drain lock: time passes, patches are stored, a 429
      pause is noted, and rows outside `mine` are added or removed, as a caller does that gives up
      on them. Only the budget is used under the lock alone. */
  predicate Quiet(s: Shared, t: Shared, mine: set<int>) {
    && t == s.(now := t.now, patches := t.patches, queue := t.queue, toCome := t.toCome,
               budget := s.budget.(pausedUntil := t.budget.pausedUntil))
    && s.now <= t.now && s.patches <= t.patches
    && RowsKept(s.queue, t.queue, mine) && |t.queue| + t.toCome <= |s.queue| + s.toCome
  }

  lemma QuietRefl(s: Shared, mine: set<int>)
    ensures Quiet(s, s, mine)
  {
  }

  lemma QuietTransitive(a: Shared, b: Shared, c: Shared, mine: set<int>)
    requires Quiet(a, b, mine) && Quiet(b, c, mine)
    ensures Quiet(a, c, mine)
  {
  }

  /** How the shared state can differ later: time, patches, charges and cached games only grow, and
      the rows of `mine` are as they were. */
  predicate Rely(s: Shared, t: Shared, mine: set<int>) {
    && s.now <= t.now
    && s.patches <= t.patches
    && s.charges <= t.charges && s.cachedGames <= t.cachedGames
    && forall k <- mine :: Find(t.queue, k) == Find(s.queue, k)
  }

  lemma RelyRefl(s: Shared, mine: set<int>)
    ensures Rely(s, s, mine)
  {
  }

  lemma RelyTransitive(a: Shared, b: Shared, c: Shared, mine: set<int>)
    requires Rely(a, b, mine) && Rely(b, c, mine)
    ensures Rely(a, c, mine)
  {
  }

  /** What happens quietly is something the others may do. */
  lemma QuietIsRely(s: Shared, t: Shared, mine: set<int>)
    requires Quiet(s, t, mine)
    ensures Rely(s, t, mine)
  {
  }
}
