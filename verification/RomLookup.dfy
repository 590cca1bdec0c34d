/**
 Which game a ROM is, and what comes of asking for it (linux/raofflineproxy/rom_browser.py). What the
 local cache holds and what RetroAchievements answers are inputs: one entry and one reply for each of
 the ROM's hashes, in their order.
 */
module RomLookup {
  import opened Bytes

  /** 7 days. */
  const GAMEID_MISS_TTL_MS := 604_800_000

  datatype RomOutcome = Cached | AlreadyCached | NoMatch | Failed | AuthRejected

  /** What the cache holds for a hash: nothing, a game, or since when it is known to be none. */
  datatype CachedLookup = Uncached | Hit(gameId: int) | Miss(cachedAt: int)

  datatype LocalAnswer = Unknown | Game(gameId: int) | NotListed

  /** What asking for one hash gives: no game, a game, a 401 or 403, or any other error. */
  datatype Lookup = NotFound | Found(gameId: int) | LookupDenied | LookupFailed

  /** What the cache holds for a hash when it is asked for, and what the server would answer. */
  datatype HashState = HashState(entry: CachedLookup, reply: Lookup)

  /** How caching a game ends; `stored` says whether it has stored the patch. */
  datatype Fetch = Fetched(stored: bool) | FetchDenied | FetchFailed

  /**
   All that happens to a drain from outside: in round `m` what the cache holds for the row with a key,
   whether a pause is asked for and until when a 429 pauses; while waiting in that round, whether a
   pause is asked for at a poll or while taking the lock back; for request `n` what each hash of the
   ROM leads to, how caching a game ends, and until when a 429 pauses afterwards; and whether a pause is
   asked for while taking the lock at first.
   */
  datatype Environment = Environment(
    startPause: bool,
    cache: (nat, int) -> seq<CachedLookup>,
    pause: nat -> bool,
    limit: nat -> Option<int>,
    waitPause: (nat, nat) -> bool,
    lockPause: nat -> bool,
    hashes: (nat, int) -> seq<HashState>,
    fetch: (nat, int) -> Fetch,
    limitAfter: nat -> Option<int>)

  /** The cache answers with the first game before any hash that it knows too little of, and denies
      a match only where every hash has a fresh miss. */
  function AnswerOf(entries: seq<CachedLookup>, now: int): (r: LocalAnswer)
    ensures r.NotListed? <==>
      forall i :: 0 <= i < |entries| ==> entries[i].Miss? && now - entries[i].cachedAt < GAMEID_MISS_TTL_MS
    ensures r.Game? <==>
      exists i ::
        && 0 <= i < |entries| && entries[i].Hit?
        && forall j :: 0 <= j < i ==> entries[j].Miss? && now - entries[j].cachedAt < GAMEID_MISS_TTL_MS
    ensures r.Game? ==>
      exists i ::
        && 0 <= i < |entries| && entries[i] == Hit(r.gameId)
        && forall j :: 0 <= j < i ==> entries[j].Miss? && now - entries[j].cachedAt < GAMEID_MISS_TTL_MS
  {
    if entries == [] then NotListed
    else
      var rest := AnswerOf(entries[1..], now);
      assert forall j :: 1 <= j < |entries| ==> entries[j] == entries[1..][j - 1];
      match entries[0]
      case Uncached => Unknown
      case Hit(gameId) => Game(gameId)
      case Miss(cachedAt) => if now - cachedAt >= GAMEID_MISS_TTL_MS then Unknown else rest
  }

  /** `local_game_id_answer` */
  method AnswerLocally(entries: seq<CachedLookup>, now: int) returns (r: LocalAnswer)
    ensures r == AnswerOf(entries, now)
  {
    assert entries[0..] == entries;
    for i := 0 to |entries|
      invariant AnswerOf(entries, now) == AnswerOf(entries[i..], now)
    {
      AnswerNext(entries, now, i);
      match entries[i] {
        case Uncached => return Unknown;
        case Hit(gameId) => return Game(gameId);
        case Miss(cachedAt) =>
          if now - cachedAt >= GAMEID_MISS_TTL_MS {
            return Unknown;
          }
      }
    }
    r := NotListed;
  }

  lemma AnswerNext(entries: seq<CachedLookup>, now: int, i: nat)
    requires i < |entries|
    ensures AnswerOf(entries[i..], now)
      == match entries[i]
         case Uncached => Unknown
         case Hit(gameId) => Game(gameId)
         case Miss(cachedAt) =>
           if now - cachedAt >= GAMEID_MISS_TTL_MS then Unknown else AnswerOf(entries[i + 1..], now)
  {
    assert entries[i..][1..] == entries[i + 1..];
  }

  // Asking the server.

  /** `fetch_game_id`: the server is asked only where the cache has no game and no fresh miss. */
  function HashLookup(h: HashState, now: int): (r: Lookup)
    ensures h.entry.Uncached? ==> r == h.reply
  {
    match h.entry
    case Hit(gameId) => Found(gameId)
    case Miss(cachedAt) => if now - cachedAt < GAMEID_MISS_TTL_MS then NotFound else h.reply
    case Uncached => h.reply
  }

  /** The first hash that leads to a game or an error decides; no game is found where none does. */
  ghost predicate Decides(hashes: seq<HashState>, now: int, r: Lookup) {
    if r == NotFound then forall i :: 0 <= i < |hashes| ==> HashLookup(hashes[i], now) == NotFound
    else
      exists i ::
        && 0 <= i < |hashes| && HashLookup(hashes[i], now) == r
        && forall j :: 0 <= j < i ==> HashLookup(hashes[j], now) == NotFound
  }

  /** The loop over the hashes of a ROM. */
  method LookUp(hashes: seq<HashState>, now: int) returns (r: Lookup)
    ensures Decides(hashes, now, r)
  {
    for i := 0 to |hashes|
      invariant forall j :: 0 <= j < i ==> HashLookup(hashes[j], now) == NotFound
    {
      r := HashLookup(hashes[i], now);
      if r != NotFound {
        return;
      }
    }
    r := NotFound;
  }

  lemma DecidesOne(hashes: seq<HashState>, now: int, a: Lookup, b: Lookup)
    requires Decides(hashes, now, a) && Decides(hashes, now, b)
    ensures a == b
  {
  }

  predicate HashesOf(hashes: seq<HashState>, entries: seq<CachedLookup>) {
    |hashes| == |entries| && forall i :: 0 <= i < |hashes| ==> hashes[i].entry == entries[i]
  }

  /** Where the cache has an answer, asking gives the same one and no reply matters; where it has none,
      a reply of the server can decide. */
  lemma AskingAgrees(hashes: seq<HashState>, entries: seq<CachedLookup>, now: int)
    requires HashesOf(hashes, entries)
    ensures match AnswerOf(entries, now)
      case Game(gameId) => Decides(hashes, now, Found(gameId))
      case NotListed => Decides(hashes, now, NotFound)
      case Unknown =>
        exists i ::
          && 0 <= i < |hashes| && HashLookup(hashes[i], now) == hashes[i].reply
          && forall j :: 0 <= j < i ==> HashLookup(hashes[j], now) == NotFound
  {
    var at := UnknownAt(entries, now);
    var answer := AnswerOf(entries, now);
    if answer.Game? {
      var i :| 0 <= i < |entries| && entries[i] == Hit(answer.gameId)
        && forall j :: 0 <= j < i ==> entries[j].Miss? && now - entries[j].cachedAt < GAMEID_MISS_TTL_MS;
      assert HashLookup(hashes[i], now) == Found(answer.gameId);
    }
  }

  lemma {:induction false} UnknownAt(entries: seq<CachedLookup>, now: int) returns (i: nat)
    ensures AnswerOf(entries, now).Unknown? ==>
      && i < |entries| && !entries[i].Hit? && (entries[i].Miss? ==> now - entries[i].cachedAt >= GAMEID_MISS_TTL_MS)
      && forall j :: 0 <= j < i ==> entries[j].Miss? && now - entries[j].cachedAt < GAMEID_MISS_TTL_MS
  {
    i := 0;
    if AnswerOf(entries, now).Unknown? && entries[0].Miss? && now - entries[0].cachedAt < GAMEID_MISS_TTL_MS {
      var k := UnknownAt(entries[1..], now);
      i := k + 1;
      assert forall j :: 1 <= j < |entries| ==> entries[j] == entries[1..][j - 1];
    }
  }

  // Requests.

  /** One request: how much of the budget's window was used and what was known before it, what it found
      out, whether the game's patch was there in the end, and its outcome. */
  datatype Request = Request(
    key: int,
    usedBefore: int,
    round: nat,
    answeredAt: int,
    local: LocalAnswer,
    known: set<int>,
    askedAt: int,
    named: Lookup,
    patchThere: bool,
    outcome: RomOutcome,
    gameId: int)

  /** What the answers make of request `n`, one outcome for each way it can go. */
  ghost predicate RequestMeans(env: Environment, n: nat, q: Request) {
    && q.local == AnswerOf(env.cache(q.round, q.key), q.answeredAt)
    && (if q.local.Game? then q.named == Found(q.local.gameId) else Decides(env.hashes(n, q.key), q.askedAt, q.named))
    && q.gameId == (if q.named.Found? then q.named.gameId else 0)
    && (q.outcome.NoMatch? <==> q.named == NotFound)
    && (q.outcome.AlreadyCached? <==> q.named.Found? && q.gameId in q.known)
    && (q.outcome.Cached? <==>
          q.named.Found? && q.gameId !in q.known && env.fetch(n, q.gameId).Fetched? && q.patchThere)
    && (q.named.Found? && q.gameId !in q.known && env.fetch(n, q.gameId) == Fetched(true) ==> q.patchThere)
    && (q.outcome.AuthRejected? <==>
          || q.named == LookupDenied
          || (q.named.Found? && q.gameId !in q.known && env.fetch(n, q.gameId) == FetchDenied))
  }

  /** The answers leave no choice. */
  lemma OneMeaning(env: Environment, n: nat, p: Request, q: Request)
    requires RequestMeans(env, n, p) && RequestMeans(env, n, q)
    requires p == q.(named := p.named, outcome := p.outcome, gameId := p.gameId)
    ensures p == q
  {
    if !q.local.Game? {
      DecidesOne(env.hashes(n, q.key), q.askedAt, p.named, q.named);
    }
  }
}
