/**
 The table `cached_game_meta` that the SQLite backend keeps beside `api_cache`
 (linux/raofflineproxy/storage.py): written by `upsert_cache`, followed by two triggers on delete
 and on rename. JSON parsing of the bodies is a parameter.
 */
module GameMetaIndex {
  import opened Bytes
  import opened Text
  import opened Decimal

  const PATCH := "patch:"
  const SETS := "achievementsets:"
  const UNLOCKS := "unlocks:"
  const SESSIONS := "startsession:"

  /** A row of `api_cache` without its key. */
  datatype Entry = Entry(body: string, source: Option<string>, cachedAt: int, firstCachedAt: int)

  /** A row of `cached_game_meta` without its key. */
  datatype Meta = Meta(gameId: Option<int>, title: Option<string>, image: Option<string>)

  datatype Tables = Tables(cache: map<string, Entry>, meta: map<string, Meta>)

  datatype Labels = Labels(title: Option<string>, image: Option<string>)

  /** What the JSON bodies say; `setsGame` is the integer under `GameId`, if there is one. */
  datatype Parsers = Parsers(patch: string -> Labels, sets: string -> Labels, setsGame: string -> Option<int>)

  predicate Indexed(key: string) {
    PATCH <= key || SETS <= key
  }

  /** `parse_game_id_from_patch_key` after the prefix: the digits up to the first colon. */
  function GameIdOf(rest: string): Option<nat> {
    var colon := IndexOf(rest, ':');
    var value := if colon < 0 then rest else rest[..colon];
    if AllDigits(value) then Some(Number(value)) else None
  }

  function MetaOf(gameId: int, labels: Labels): Meta
    requires gameId >= 0
  {
    Meta(Some(gameId), Some(if labels.title.Some? then labels.title.value else "Game " + ToText(gameId)), labels.image)
  }

  /** `game_meta_for_entry` */
  function EntryMeta(p: Parsers, key: string, body: string): Option<Meta> {
    if PATCH <= key then
      var gameId := GameIdOf(key[|PATCH|..]);
      if gameId.Some? then Some(MetaOf(gameId.value, p.patch(body))) else None
    else if SETS <= key then
      var gameId := p.setsGame(body);
      if gameId.Some? && gameId.value > 0 then Some(MetaOf(gameId.value, p.sets(body))) else None
    else None
  }

  /** `game_meta_row` */
  function MetaRow(p: Parsers, key: string, body: string): Meta {
    var meta := EntryMeta(p, key, body);
    if meta.Some? then meta.value else Meta(None, None, None)
  }

  /** Exactly one row for each patch and achievement set, and it says what the entry says. */
  ghost predicate Synced(p: Parsers, st: Tables) {
    && (forall key :: key in st.meta <==> key in st.cache && Indexed(key))
    && (forall key :: key in st.meta ==> st.meta[key] == MetaRow(p, key, st.cache[key].body))
  }

  // The statements and their triggers.

  function Upserted(p: Parsers, st: Tables, key: string, body: string, source: Option<string>, now: int): Tables {
    var given := if source.Some? && source.value != "" then source else None;
    var before := if key in st.cache then st.cache[key].source else None;
    var first := if key in st.cache then st.cache[key].firstCachedAt else now;
    Tables(
      st.cache[key := Entry(body, if given.Some? then given else before, now, first)],
      if Indexed(key) then st.meta[key := MetaRow(p, key, body)] else st.meta)
  }

  /** `DELETE FROM api_cache` and its trigger for each deleted row. */
  function Deleted(st: Tables, doomed: set<string>): Tables {
    Tables(st.cache - doomed, st.meta - doomed * st.cache.Keys)
  }

  /** The primary key of one of the tables refuses the new name. */
  predicate RenameFails(st: Tables, key: string, name: string) {
    key in st.cache && key != name && (name in st.cache || (key in st.meta && name in st.meta))
  }

  /** `UPDATE api_cache SET cacheKey` and its trigger. */
  function Renamed(st: Tables, key: string, name: string): Tables {
    if key !in st.cache || RenameFails(st, key, name) then st
    else
      Tables(
        (st.cache - {key})[name := st.cache[key]],
        if key in st.meta then (st.meta - {key})[name := st.meta[key]] else st.meta)
  }

  // The migration to lower-case user names.

  function LastIndexOf(s: string, c: char): (r: int)
    ensures -1 <= r < |s|
    ensures r >= 0 ==> s[r] == c
    ensures forall i :: r < i < |s| ==> s[i] != c
  {
    if s == "" then -1 else if s[|s| - 1] == c then |s| - 1 else LastIndexOf(s[..|s| - 1], c)
  }

  /** `_lowercased_user_key` after the prefix: the user follows the last colon of a set's key and the
      first one of the others, where more may come after it. */
  function LowercasedRest(lower: string -> string, rest: string, sets: bool): Option<string> {
    var colon := if sets then LastIndexOf(rest, ':') else IndexOf(rest, ':');
    if colon < 0 then None
    else
      var scope, tail := rest[..colon], rest[colon + 1..];
      var end := if sets then -1 else IndexOf(tail, ':');
      var user := if end < 0 then tail else tail[..end];
      var suffix := if end < 0 then "" else tail[end..];
      if scope == "" || user == "" then None else Some(scope + [':'] + (lower(user) + suffix))
  }

  function LowercasedUserKey(lower: string -> string, key: string, prefix: string): Option<string>
    requires prefix <= key
  {
    var rest := LowercasedRest(lower, key[|prefix|..], prefix == SETS);
    if rest.Some? then Some(prefix + rest.value) else None
  }

  function KeyMigrated(lower: string -> string, st: Tables, key: string, prefix: string): Tables
    requires prefix <= key
  {
    var to := LowercasedUserKey(lower, key, prefix);
    if to.None? || to.value == key then st
    else if to.value in st.cache then Deleted(st, {key})
    else Renamed(st, key, to.value)
  }

  predicate AllUnder(keys: seq<string>, prefix: string) {
    forall i :: 0 <= i < |keys| ==> prefix <= keys[i]
  }

  /** One pass of the migration over the keys listed for one prefix. */
  function Migrated(lower: string -> string, st: Tables, keys: seq<string>, prefix: string): Tables
    requires AllUnder(keys, prefix)
  {
    if keys == [] then st
    else
      var last := |keys| - 1;
      KeyMigrated(lower, Migrated(lower, st, keys[..last], prefix), keys[last], prefix)
  }

  // What the keys mean.

  /** The key of a patch, as it is written, names its game: the row has it, with the title or a made-up
      one, whoever the patch was stored for. */
  lemma PatchKeyRow(p: Parsers, gameId: nat, user: string, body: string)
    ensures var key := "patch:" + (ToText(gameId) + ([':'] + user));
      && Indexed(key)
      && var row := MetaRow(p, key, body);
         && row.gameId == Some(gameId) && row.image == p.patch(body).image
         && row.title == (if p.patch(body).title.Some? then p.patch(body).title else Some("Game " + ToText(gameId)))
  {
    hide IndexOf, Number;
    var rest := ToText(gameId) + ([':'] + user);
    var key := "patch:" + rest;
    assert key[|PATCH|..] == rest;
    assert rest == ToText(gameId) + [':'] + user;
    IndexOfSuffix(ToText(gameId), ':', user);
    assert rest[..|ToText(gameId)|] == ToText(gameId);
    NumberOfText(gameId);
  }

  /** An achievement set has the game its body names, if that is a positive number. */
  lemma SetsKeyRow(p: Parsers, rest: string, body: string)
    ensures var key, game := "achievementsets:" + rest, p.setsGame(body);
      && Indexed(key)
      && var row := MetaRow(p, key, body);
         if game.Some? && game.value > 0 then
           && row.gameId == game && row.image == p.sets(body).image
           && row.title == (if p.sets(body).title.Some? then p.sets(body).title else Some("Game " + ToText(game.value)))
         else row == Meta(None, None, None)
  {
    var key := "achievementsets:" + rest;
    assert key[0] == 'a' && PATCH[0] == 'p';
    assert SETS <= key;
  }

  /** A stored row has the new body and time, the first time of all, and the latest source that names
      one. */
  lemma StoredTwice(
      p: Parsers, st: Tables, key: string, body: string, source: Option<string>, now: int, again: string,
      newSource: Option<string>, later: int)
    requires key !in st.cache
    ensures var to := Upserted(p, Upserted(p, st, key, body, source, now), key, again, newSource, later);
      && to.cache[key].body == again && to.cache[key].cachedAt == later && to.cache[key].firstCachedAt == now
      && to.cache[key].source ==
           (if newSource.Some? && newSource.value != "" then newSource
            else if source.Some? && source.value != "" then source else None)
      && (forall other :: other != key ==>
            && (other in to.cache <==> other in st.cache)
            && (other in st.cache ==> to.cache[other] == st.cache[other]))
  {
    hide MetaRow;
  }

  /** In tables that are in step a rename fails exactly on a name that is taken. */
  lemma RenameFailsExactly(p: Parsers, st: Tables, key: string, name: string)
    requires Synced(p, st)
    ensures RenameFails(st, key, name) <==> key in st.cache && name in st.cache && name != key
  {
    hide MetaRow;
  }

  /** Lower-casing the user of a key: it stands behind the scope, up to the next colon. */
  lemma UserKeyLowers(lower: string -> string, prefix: string, scope: string, user: string, suffix: string)
    requires prefix != SETS && scope != "" && user != "" && ':' !in scope && ':' !in user
    requires suffix == "" || suffix[0] == ':'
    ensures LowercasedUserKey(lower, prefix + (scope + [':'] + (user + suffix)), prefix)
      == Some(prefix + (scope + [':'] + (lower(user) + suffix)))
  {
    hide IndexOf, LastIndexOf;
    var rest := scope + [':'] + (user + suffix);
    assert (prefix + rest)[|prefix|..] == rest;
    IndexOfSuffix(scope, ':', user + suffix);
    EndOfUser(user, suffix);
    assert rest[..|scope|] == scope && rest[|scope| + 1..] == user + suffix;
  }

  /** In the key of an achievement set the user is all behind the last colon. */
  lemma SetsKeyLowers(lower: string -> string, scope: string, user: string)
    requires scope != "" && user != "" && ':' !in user
    ensures LowercasedUserKey(lower, SETS + (scope + [':'] + user), SETS)
      == Some(SETS + (scope + [':'] + lower(user)))
  {
    hide IndexOf, LastIndexOf;
    var rest := scope + [':'] + user;
    assert (SETS + rest)[|SETS|..] == rest;
    LastIndexOfPrefix(scope, ':', user);
    assert rest[..|scope|] == scope && rest[|scope| + 1..] == user;
    assert lower(user) + "" == lower(user);
  }

  // What a rename must respect, and that the migration respects it.

  /** A rename keeps the tables in step exactly when the new name means the same as the old one. */
  lemma RenameKeepsSyncExactly(p: Parsers, st: Tables, key: string, name: string)
    requires Synced(p, st) && key in st.cache && name !in st.cache
    ensures var body := st.cache[key].body;
      Synced(p, Renamed(st, key, name)) <==>
      Indexed(key) == Indexed(name) && (Indexed(key) ==> MetaRow(p, key, body) == MetaRow(p, name, body))
  {
    hide MetaRow, Indexed;
    var to := Renamed(st, key, name);
    assert to.cache[name] == st.cache[key];
    if Indexed(key) {
      assert name in to.meta && to.meta[name] == st.meta[key];
    } else {
      assert name !in to.meta;
    }
  }

  lemma {:induction false} LastIndexOfPrefix(a: string, c: char, b: string)
    requires c !in b
    ensures LastIndexOf(a + [c] + b, c) == |a|
  {
    var s := a + [c] + b;
    if b != "" {
      var last := |b| - 1;
      assert s[|s| - 1] == b[last];
      assert s[..|s| - 1] == a + [c] + b[..last];
      LastIndexOfPrefix(a, c, b[..last]);
    } else {
      assert s[|s| - 1] == c;
    }
  }

  /** Lower-casing the user leaves the game id in the key alone. */
  lemma LowercasedMeansTheSame(
      p: Parsers, lower: string -> string, key: string, prefix: string, body: string)
    requires prefix in UserPrefixes() && prefix <= key
    requires LowercasedUserKey(lower, key, prefix).Some?
    ensures var to := LowercasedUserKey(lower, key, prefix).value;
      Indexed(to) == Indexed(key) && MetaRow(p, to, body) == MetaRow(p, key, body)
  {
    hide GameIdOf, LowercasedRest, MetaOf;
    var to := LowercasedUserKey(lower, key, prefix).value;
    assert prefix <= to;
    OnePrefix(key, prefix);
    OnePrefix(to, prefix);
    if prefix == PATCH {
      assert to[|prefix|..] == LowercasedRest(lower, key[|prefix|..], false).value;
      LowercasedGameId(lower, key[|prefix|..]);
    }
  }

  lemma LowercasedGameId(lower: string -> string, rest: string)
    requires LowercasedRest(lower, rest, false).Some?
    ensures GameIdOf(LowercasedRest(lower, rest, false).value) == GameIdOf(rest)
  {
    hide IndexOf, Number, AllDigits;
    var to := LowercasedRest(lower, rest, false).value;
    var colon := IndexOf(rest, ':');
    IndexOfSuffix(rest[..colon], ':', to[colon + 1..]);
    assert to == rest[..colon] + [':'] + to[colon + 1..];
    assert to[..colon] == rest[..colon];
  }

  /** The four prefixes differ in their first letter. */
  lemma OnePrefix(key: string, prefix: string)
    requires prefix in UserPrefixes() && prefix <= key
    ensures PATCH <= key <==> prefix == PATCH
    ensures SETS <= key <==> prefix == SETS
  {
    assert prefix[0] == key[0];
    assert PATCH[0] == 'p' && SETS[0] == 'a' && UNLOCKS[0] == 'u' && SESSIONS[0] == 's';
    assert PATCH <= key ==> PATCH[0] == key[0];
    assert SETS <= key ==> SETS[0] == key[0];
  }

  lemma PrefixesDiffer(key: string, i: nat, j: nat)
    requires i < j < |UserPrefixes()|
    ensures !(UserPrefixes()[i] <= key && UserPrefixes()[j] <= key)
  {
    assert PATCH[0] == 'p' && SETS[0] == 'a' && UNLOCKS[0] == 'u' && SESSIONS[0] == 's';
    var a, b := UserPrefixes()[i], UserPrefixes()[j];
    assert a[0] != b[0];
    assert a <= key ==> key[0] == a[0];
    assert b <= key ==> key[0] == b[0];
  }

  /** The kinds of key that name a user, in the order of the migration. */
  function UserPrefixes(): seq<string> {
    [PATCH, SETS, UNLOCKS, SESSIONS]
  }

  lemma KeyMigratedKeepsSync(
      p: Parsers, lower: string -> string, st: Tables, key: string, prefix: string)
    requires Synced(p, st) && prefix in UserPrefixes() && prefix <= key
    ensures Synced(p, KeyMigrated(lower, st, key, prefix))
    ensures var to := LowercasedUserKey(lower, key, prefix);
      to.Some? && to.value !in st.cache ==> !RenameFails(st, key, to.value)
  {
    hide LowercasedUserKey, MetaRow, Indexed;
    var to := LowercasedUserKey(lower, key, prefix);
    if to.Some? && to.value != key && to.value !in st.cache && key in st.cache {
      LowercasedMeansTheSame(p, lower, key, prefix, st.cache[key].body);
      RenameKeepsSyncExactly(p, st, key, to.value);
    }
  }

  lemma {:induction false} MigrationKeepsSync(
      p: Parsers, lower: string -> string, st: Tables, keys: seq<string>, prefix: string)
    requires Synced(p, st) && prefix in UserPrefixes() && AllUnder(keys, prefix)
    ensures Synced(p, Migrated(lower, st, keys, prefix))
  {
    hide Synced, KeyMigrated;
    if keys != [] {
      var last := |keys| - 1;
      MigrationKeepsSync(p, lower, st, keys[..last], prefix);
      KeyMigratedKeepsSync(p, lower, Migrated(lower, st, keys[..last], prefix), keys[last], prefix);
    }
  }

  // All operations together.

  datatype Operation =
    | Upsert(key: string, body: string, source: Option<string>, now: int)
    | Delete(matches: string -> bool)
    | Evict(before: int, exempt: string -> bool)
    | Migrate(lower: string -> string, keys: seq<string>, prefix: string)

  function Evictable(st: Tables, before: int, exempt: string -> bool): set<string> {
    set key | key in st.cache && st.cache[key].cachedAt < before && !exempt(key)
  }

  /** Evicting leaves exactly the exempt rows and those that are not older. */
  lemma EvictionLeaves(p: Parsers, st: Tables, before: int, exempt: string -> bool, key: string)
    ensures var to := Next(p, st, Evict(before, exempt));
      && (key in to.cache <==> key in st.cache && (exempt(key) || st.cache[key].cachedAt >= before))
      && (key in to.cache ==> to.cache[key] == st.cache[key])
  {
  }

  predicate Allowed(operation: Operation) {
    operation.Migrate? ==>
      operation.prefix in UserPrefixes() && AllUnder(operation.keys, operation.prefix)
  }

  function Next(p: Parsers, st: Tables, operation: Operation): Tables
    requires Allowed(operation)
  {
    match operation
    case Upsert(key, body, source, now) => Upserted(p, st, key, body, source, now)
    case Delete(matches) => Deleted(st, set key | key in st.cache && matches(key))
    case Evict(before, exempt) => Deleted(st, Evictable(st, before, exempt))
    case Migrate(lower, keys, prefix) => Migrated(lower, st, keys, prefix)
  }

  function Run(p: Parsers, st: Tables, operations: seq<Operation>): Tables
    requires forall i :: 0 <= i < |operations| ==> Allowed(operations[i])
    decreases |operations|
  {
    if operations == [] then st else Run(p, Next(p, st, operations[0]), operations[1..])
  }

  /** Whatever is stored, deleted, cleared, evicted and migrated, the index follows. */
  lemma {:induction false} EveryRunKeepsSync(p: Parsers, st: Tables, operations: seq<Operation>)
    requires Synced(p, st) && forall i :: 0 <= i < |operations| ==> Allowed(operations[i])
    ensures Synced(p, Run(p, st, operations))
    decreases |operations|
  {
    hide MetaRow, Indexed, Migrated;
    if operations != [] {
      var op := operations[0];
      assert Allowed(op);
      if op.Migrate? {
        MigrationKeepsSync(p, op.lower, st, op.keys, op.prefix);
      }
      assert Synced(p, Next(p, st, op));
      EveryRunKeepsSync(p, Next(p, st, op), operations[1..]);
    }
  }

  // What the migration leaves.

  /** `str.lower` as far as it matters. */
  ghost predicate Lowers(lower: string -> string) {
    forall user :: lower(lower(user)) == lower(user) && (user != "" ==> lower(user) != "") &&
      (':' !in user ==> ':' !in lower(user))
  }

  predicate Settled(lower: string -> string, key: string, prefix: string)
    requires prefix <= key
  {
    var to := LowercasedUserKey(lower, key, prefix);
    to.None? || to.value == key
  }

  lemma LowercasedTwice(lower: string -> string, rest: string, sets: bool)
    requires Lowers(lower) && LowercasedRest(lower, rest, sets).Some?
    ensures var to := LowercasedRest(lower, rest, sets).value; LowercasedRest(lower, to, sets) == Some(to)
  {
    hide IndexOf, LastIndexOf;
    var colon := if sets then LastIndexOf(rest, ':') else IndexOf(rest, ':');
    var scope, tail := rest[..colon], rest[colon + 1..];
    if sets {
      SetsKeyAgain(lower, scope, tail);
    } else {
      var end := IndexOf(tail, ':');
      UserKeyAgain(lower, scope, if end < 0 then tail else tail[..end], if end < 0 then "" else tail[end..]);
    }
  }

  lemma SetsKeyAgain(lower: string -> string, scope: string, user: string)
    requires Lowers(lower) && scope != "" && user != "" && ':' !in user
    ensures var to := scope + [':'] + (lower(user) + ""); LowercasedRest(lower, to, true) == Some(to)
  {
    hide IndexOf, LastIndexOf;
    var after := lower(user) + "";
    assert after == lower(user);
    var to := scope + [':'] + after;
    LastIndexOfPrefix(scope, ':', after);
    assert to[..|scope|] == scope && to[|scope| + 1..] == after;
  }

  lemma UserKeyAgain(lower: string -> string, scope: string, user: string, suffix: string)
    requires Lowers(lower) && scope != "" && user != "" && ':' !in scope && ':' !in user
    requires suffix == "" || suffix[0] == ':'
    ensures var to := scope + [':'] + (lower(user) + suffix); LowercasedRest(lower, to, false) == Some(to)
  {
    hide IndexOf, LastIndexOf;
    var after := lower(user) + suffix;
    var to := scope + [':'] + after;
    IndexOfSuffix(scope, ':', after);
    EndOfUser(lower(user), suffix);
    assert to[..|scope|] == scope && to[|scope| + 1..] == after;
  }

  lemma EndOfUser(user: string, suffix: string)
    requires ':' !in user && (suffix == "" || suffix[0] == ':')
    ensures var end := IndexOf(user + suffix, ':');
      if end < 0 then user + suffix == user && suffix == ""
      else (user + suffix)[..end] == user && (user + suffix)[end..] == suffix && suffix != ""
  {
    hide IndexOf;
    if suffix != "" {
      assert user + suffix == user + [':'] + suffix[1..];
      IndexOfSuffix(user, ':', suffix[1..]);
    } else {
      assert user + suffix == user;
    }
  }

  lemma MigratedKeyIsSettled(lower: string -> string, key: string, prefix: string)
    requires Lowers(lower) && prefix <= key && LowercasedUserKey(lower, key, prefix).Some?
    ensures var to := LowercasedUserKey(lower, key, prefix).value;
      prefix <= to && LowercasedUserKey(lower, to, prefix) == Some(to)
  {
    hide LowercasedRest;
    var to := LowercasedUserKey(lower, key, prefix).value;
    assert to[|prefix|..] == LowercasedRest(lower, key[|prefix|..], prefix == SETS).value;
    LowercasedTwice(lower, key[|prefix|..], prefix == SETS);
  }

  /** `key` is in the tables because it was before and stays, or because an old spelling became it. */
  ghost predicate Kept(lower: string -> string, st: Tables, keys: seq<string>, prefix: string, key: string)
    requires AllUnder(keys, prefix)
  {
    key in st.cache && (key !in keys || Settled(lower, key, prefix))
  }

  predicate Becomes(lower: string -> string, other: string, prefix: string, key: string)
    requires prefix <= other
  {
    other != key && LowercasedUserKey(lower, other, prefix) == Some(key)
  }

  ghost predicate Gained(lower: string -> string, st: Tables, keys: seq<string>, prefix: string, key: string)
    requires AllUnder(keys, prefix)
  {
    exists i :: 0 <= i < |keys| && keys[i] in st.cache && Becomes(lower, keys[i], prefix, key)
  }

  predicate Distinct(keys: seq<string>) {
    forall i, j :: 0 <= i < j < |keys| ==> keys[i] != keys[j]
  }

  /** What a pass over `keys` leaves under `key`. */
  ghost predicate Left(lower: string -> string, st: Tables, to: Tables, keys: seq<string>, prefix: string, key: string)
    requires AllUnder(keys, prefix)
  {
    && (key in to.cache <==> Kept(lower, st, keys, prefix, key) || Gained(lower, st, keys, prefix, key))
    && (key in to.cache && key in st.cache ==> to.cache[key] == st.cache[key])
    && (key in to.cache && key !in st.cache ==>
          exists i :: 0 <= i < |keys| && keys[i] in st.cache && Becomes(lower, keys[i], prefix, key)
            && to.cache[key] == st.cache[keys[i]])
  }

  lemma GainedIsSettled(
      lower: string -> string, st: Tables, keys: seq<string>, prefix: string, key: string)
    requires Lowers(lower) && AllUnder(keys, prefix) && Gained(lower, st, keys, prefix, key)
    ensures prefix <= key && Settled(lower, key, prefix)
  {
    hide LowercasedUserKey;
    var i :| 0 <= i < |keys| && keys[i] in st.cache && Becomes(lower, keys[i], prefix, key);
    MigratedKeyIsSettled(lower, keys[i], prefix);
  }

  lemma GainedByOneMore(
      lower: string -> string, st: Tables, before: seq<string>, last: string, prefix: string, key: string)
    requires AllUnder(before, prefix) && prefix <= last
    ensures Gained(lower, st, before + [last], prefix, key) <==>
      Gained(lower, st, before, prefix, key) || (last in st.cache && Becomes(lower, last, prefix, key))
  {
    hide Becomes;
    var keys := before + [last];
    assert forall i :: 0 <= i < |before| ==> keys[i] == before[i];
    assert keys[|before|] == last;
  }

  lemma LastStep(
      lower: string -> string, st: Tables, mid: Tables, before: seq<string>, last: string, prefix: string, key: string)
    requires Lowers(lower) && AllUnder(before, prefix) && prefix <= last && last !in before
    requires Left(lower, st, mid, before, prefix, key) && Left(lower, st, mid, before, prefix, last)
    requires var to := LowercasedUserKey(lower, last, prefix);
      to.Some? && to.value !in mid.cache ==> !RenameFails(mid, last, to.value)
    ensures Left(lower, st, KeyMigrated(lower, mid, last, prefix), before + [last], prefix, key)
  {
    hide LowercasedUserKey, Lowers;
    var keys := before + [last];
    assert forall i :: 0 <= i < |before| ==> keys[i] == before[i];
    assert keys[|before|] == last;
    GainedByOneMore(lower, st, before, last, prefix, key);
    if Gained(lower, st, before, prefix, last) {
      GainedIsSettled(lower, st, before, prefix, last);
    }
    var to := LowercasedUserKey(lower, last, prefix);
    if to.Some? {
      MigratedKeyIsSettled(lower, last, prefix);
    }
    if !Settled(lower, last, prefix) {
      assert last in mid.cache <==> last in st.cache;
      if last in mid.cache && key == to.value && key !in mid.cache {
        assert Becomes(lower, keys[|before|], prefix, key);
      }
    }
  }

  lemma {:induction false} MigrationLeaves(
      p: Parsers, lower: string -> string, st: Tables, keys: seq<string>, prefix: string, key: string)
    requires Synced(p, st) && Lowers(lower) && prefix in UserPrefixes()
    requires AllUnder(keys, prefix) && Distinct(keys)
    ensures Left(lower, st, Migrated(lower, st, keys, prefix), keys, prefix, key)
  {
    hide LowercasedUserKey, Synced, Lowers;
    if keys != [] {
      var before, last := keys[..|keys| - 1], keys[|keys| - 1];
      assert keys == before + [last];
      var mid := Migrated(lower, st, before, prefix);
      MigrationKeepsSync(p, lower, st, before, prefix);
      KeyMigratedKeepsSync(p, lower, mid, last, prefix);
      MigrationLeaves(p, lower, st, before, prefix, key);
      MigrationLeaves(p, lower, st, before, prefix, last);
      LastStep(lower, st, mid, before, last, prefix, key);
    }
  }

  /** A pass over every key of a prefix leaves it with lower-case users only and loses no game. */
  lemma MigrationSettlesAll(
      p: Parsers, lower: string -> string, st: Tables, keys: seq<string>, prefix: string)
    requires Synced(p, st) && Lowers(lower) && prefix in UserPrefixes()
    requires AllUnder(keys, prefix) && Distinct(keys)
    requires forall key :: key in st.cache && prefix <= key ==> key in keys
    ensures var to := Migrated(lower, st, keys, prefix);
      && (forall key :: key in to.cache && prefix <= key ==> Settled(lower, key, prefix))
      && (forall key :: key in st.cache && !(prefix <= key) <==> key in to.cache && !(prefix <= key))
      && (forall key :: key in st.cache && key in to.cache ==> to.cache[key] == st.cache[key])
      && (forall i :: 0 <= i < |keys| && keys[i] in st.cache ==>
            (Settled(lower, keys[i], prefix) && keys[i] in to.cache)
            || (exists key :: key in to.cache && Becomes(lower, keys[i], prefix, key)))
  {
    hide LowercasedUserKey, Migrated, Synced, Lowers;
    var to := Migrated(lower, st, keys, prefix);
    forall key
      ensures Left(lower, st, to, keys, prefix, key)
      ensures key in to.cache && prefix <= key ==> Settled(lower, key, prefix)
      ensures key in st.cache && !(prefix <= key) <==> key in to.cache && !(prefix <= key)
    {
      MigrationLeaves(p, lower, st, keys, prefix, key);
      if Gained(lower, st, keys, prefix, key) {
        GainedIsSettled(lower, st, keys, prefix, key);
      }
    }
    forall i | 0 <= i < |keys| && keys[i] in st.cache && !Settled(lower, keys[i], prefix)
      ensures exists key :: key in to.cache && Becomes(lower, keys[i], prefix, key)
    {
      var key := LowercasedUserKey(lower, keys[i], prefix).value;
      assert Becomes(lower, keys[i], prefix, key);
      assert Left(lower, st, to, keys, prefix, key);
    }
  }

  // Listing games.

  predicate Asked(meta: Meta, gameId: Option<int>) {
    gameId.None? || meta.gameId == gameId
  }

  /** `cached_game_meta` on SQLite reads the index. */
  function IndexAnswer(st: Tables, gameId: Option<int>): map<string, Meta> {
    map key | key in st.meta && st.meta[key].gameId.Some? && st.meta[key].gameId.value > 0 &&
      Asked(st.meta[key], gameId)
      :: st.meta[key]
  }

  /** It lists the rows of all games, or of the one asked for; 0 is no game. */
  lemma IndexLists(st: Tables, gameId: Option<int>, key: string)
    ensures key in IndexAnswer(st, gameId) <==>
      && key in st.meta && st.meta[key].gameId.Some? && st.meta[key].gameId.value >= 1
      && (gameId.Some? ==> st.meta[key].gameId.value == gameId.value)
  {
  }

  /** `cached_game_meta` on the JSON backend parses every entry. */
  function ParsedAnswer(p: Parsers, st: Tables, gameId: Option<int>): map<string, Meta> {
    map key | key in st.cache && EntryMeta(p, key, st.cache[key].body).Some?
        && Asked(EntryMeta(p, key, st.cache[key].body).value, gameId)
      :: EntryMeta(p, key, st.cache[key].body).value
  }

  lemma EntryMetaIsIndexed(p: Parsers, key: string, body: string)
    ensures EntryMeta(p, key, body).Some? ==> Indexed(key) && EntryMeta(p, key, body).value.gameId.Some?
    ensures EntryMeta(p, key, body).Some? ==> MetaRow(p, key, body) == EntryMeta(p, key, body).value
    ensures EntryMeta(p, key, body).None? ==> MetaRow(p, key, body).gameId.None?
  {
  }

  predicate IsGameZero(p: Parsers, key: string, body: string) {
    var meta := EntryMeta(p, key, body);
    meta.Some? && meta.value.gameId == Some(0)
  }

  /** Only a patch stored for game 0 can tell the two backends apart. */
  lemma BackendsAgreeExactly(p: Parsers, st: Tables)
    requires Synced(p, st)
    ensures (forall gameId :: IndexAnswer(st, gameId) == ParsedAnswer(p, st, gameId)) <==>
      (forall key :: key in st.cache ==> !IsGameZero(p, key, st.cache[key].body))
  {
    hide EntryMeta, MetaRow, Indexed;
    forall key | key in st.cache
      ensures EntryMeta(p, key, st.cache[key].body).Some? <==> key in st.meta && st.meta[key].gameId.Some?
      ensures EntryMeta(p, key, st.cache[key].body).Some? ==>
        st.meta[key] == EntryMeta(p, key, st.cache[key].body).value
    {
      EntryMetaIsIndexed(p, key, st.cache[key].body);
    }
    if forall key :: key in st.cache ==> !IsGameZero(p, key, st.cache[key].body) {
      forall gameId
        ensures IndexAnswer(st, gameId) == ParsedAnswer(p, st, gameId)
      {
        forall key | key in ParsedAnswer(p, st, gameId)
          ensures key in IndexAnswer(st, gameId)
        {
          EntryMetaSign(p, key, st.cache[key].body);
        }
      }
    } else {
      var key :| key in st.cache && IsGameZero(p, key, st.cache[key].body);
      assert key in ParsedAnswer(p, st, None) && key !in IndexAnswer(st, None);
    }
  }

  lemma EntryMetaSign(p: Parsers, key: string, body: string)
    ensures EntryMeta(p, key, body).Some? ==> EntryMeta(p, key, body).value.gameId.Some?
    ensures EntryMeta(p, key, body).Some? ==> EntryMeta(p, key, body).value.gameId.value >= 0
  {
  }

  // The storage itself.

  const GAME_META_INDEX_BATCH := 50

  /** The index has no wrong row, but may lack some. */
  ghost predicate Behind(p: Parsers, st: Tables) {
    && (forall key :: key in st.meta ==> key in st.cache && Indexed(key))
    && (forall key :: key in st.meta ==> st.meta[key] == MetaRow(p, key, st.cache[key].body))
  }

  /** What listing the keys under a prefix answers, in the database's order. */
  ghost predicate Lists(list: (Tables, string) -> seq<string>) {
    forall st, prefix ::
      && Distinct(list(st, prefix))
      && forall key :: key in list(st, prefix) <==> key in st.cache && prefix <= key
  }

  class Storage {
    const parsers: Parsers
    var cache: map<string, Entry>
    var meta: map<string, Meta>

    constructor (parsers: Parsers)
      ensures State() == Tables(map[], map[]) && this.parsers == parsers
    {
      this.parsers, cache, meta := parsers, map[], map[];
    }

    function State(): Tables
      reads this
    {
      Tables(cache, meta)
    }

    /** `upsert_cache`: the metadata is computed before the write. */
    method UpsertCache(key: string, body: string, source: Option<string>, now: int)
      modifies this
      ensures State() == Upserted(parsers, old(State()), key, body, source, now)
      ensures old(Synced(parsers, State())) ==> Synced(parsers, State())
    {
      hide MetaRow;
      var metaRow := if Indexed(key) then Some(MetaRow(parsers, key, body)) else None;
      var first := if key in cache then cache[key].firstCachedAt else now;
      var existing := if key in cache then cache[key].source else None;
      var kept := if source.Some? && source.value != "" then source else existing;
      cache := cache[key := Entry(body, kept, now, first)];
      if metaRow.Some? {
        meta := meta[key := metaRow.value];
      }
    }

    /** The deleting statements: one key, a prefix, clearing, eviction. */
    method DeleteKeys(doomed: set<string>)
      modifies this
      ensures State() == Deleted(old(State()), doomed)
      ensures old(Synced(parsers, State())) ==> Synced(parsers, State())
    {
      hide MetaRow, Indexed;
      meta := meta - doomed * cache.Keys;
      cache := cache - doomed;
    }

    /** `rename_cache_key`; false is the integrity error of a taken name. */
    method RenameCacheKey(key: string, name: string) returns (ok: bool)
      modifies this
      ensures ok == !RenameFails(old(State()), key, name)
      ensures State() == Renamed(old(State()), key, name)
    {
      if key !in cache {
        return true;
      }
      if key != name && (name in cache || (key in meta && name in meta)) {
        return false;
      }
      var entry := cache[key];
      cache := (cache - {key})[name := entry];
      if key in meta {
        var row := meta[key];
        meta := (meta - {key})[name := row];
      }
      ok := true;
    }

    /** One round of `migrate_user_case_in_cache_keys`. */
    method MigratePrefix(lower: string -> string, keys: seq<string>, prefix: string) returns (ok: bool)
      requires Synced(parsers, State()) && prefix in UserPrefixes() && AllUnder(keys, prefix)
      modifies this
      ensures ok && State() == Migrated(lower, old(State()), keys, prefix) && Synced(parsers, State())
    {
      hide Synced, KeyMigrated;
      ok := true;
      ghost var st := State();
      for i := 0 to |keys|
        invariant ok && State() == Migrated(lower, st, keys[..i], prefix) && Synced(parsers, State())
      {
        var key := keys[i];
        assert keys[..i + 1] == keys[..i] + [key];
        ok := MigrateKey(lower, key, prefix);
      }
      assert keys[..|keys|] == keys;
    }

    /** One key of it. */
    method MigrateKey(lower: string -> string, key: string, prefix: string) returns (ok: bool)
      requires Synced(parsers, State()) && prefix in UserPrefixes() && prefix <= key
      modifies this
      ensures ok && State() == KeyMigrated(lower, old(State()), key, prefix) && Synced(parsers, State())
    {
      hide Synced, LowercasedUserKey, RenameFails, Renamed, Deleted;
      KeyMigratedKeepsSync(parsers, lower, State(), key, prefix);
      var to := LowercasedUserKey(lower, key, prefix);
      ok := true;
      if to.Some? && to.value != key {
        if to.value in cache {
          DeleteKeys({key});
        } else {
          ok := RenameCacheKey(key, to.value);
        }
      }
    }

    /** One round with the keys that are listed for it. */
    method MigrateListed(lower: string -> string, list: (Tables, string) -> seq<string>, prefix: string)
      returns (ok: bool)
      requires Synced(parsers, State()) && Lowers(lower) && Lists(list) && prefix in UserPrefixes()
      modifies this
      ensures ok && Synced(parsers, State())
      ensures forall key :: key in cache && prefix <= key ==> Settled(lower, key, prefix)
      ensures forall key :: key in cache && !(prefix <= key) <==> key in old(cache) && !(prefix <= key)
      ensures forall key :: key in cache && key in old(cache) ==> cache[key] == old(cache[key])
    {
      hide Synced, Lowers, Settled, Migrated, LowercasedUserKey;
      var keys := list(State(), prefix);
      assert forall j :: 0 <= j < |keys| ==> keys[j] in keys;
      MigrationSettlesAll(parsers, lower, State(), keys, prefix);
      ok := MigratePrefix(lower, keys, prefix);
    }

    /** `migrate_user_case_in_cache_keys`: afterwards no key under the four prefixes names a user in
        upper case. */
    method MigrateUserCase(lower: string -> string, list: (Tables, string) -> seq<string>) returns (ok: bool)
      requires Synced(parsers, State()) && Lowers(lower) && Lists(list)
      modifies this
      ensures ok && Synced(parsers, State())
      ensures forall key, j :: 0 <= j < |UserPrefixes()| && key in cache && UserPrefixes()[j] <= key ==>
        Settled(lower, key, UserPrefixes()[j])
      ensures forall key :: key in cache && key in old(cache) ==> cache[key] == old(cache[key])
    {
      hide Synced, Lowers, Lists, Settled;
      var prefixes := UserPrefixes();
      hide UserPrefixes;
      ok := true;
      for i := 0 to |prefixes|
        invariant ok && Synced(parsers, State())
        invariant forall key, j ::
          0 <= j < i && key in cache && prefixes[j] <= key ==> Settled(lower, key, prefixes[j])
        invariant forall key ::
          (forall j :: 0 <= j < i ==> !(prefixes[j] <= key)) ==> (key in cache <==> key in old(cache))
        invariant forall key :: key in cache && key in old(cache) ==> cache[key] == old(cache[key])
      {
        var prefix := prefixes[i];
        ok := MigrateListed(lower, list, prefix);
        forall key, j | 0 <= j < i && key in cache && prefix <= key
          ensures !(prefixes[j] <= key)
        {
          PrefixesDiffer(key, j, i);
        }
      }
    }

    /** The rows of one batch. */
    method MetaRows(batch: seq<string>) returns (rows: map<string, Meta>)
      requires forall key :: key in batch ==> key in cache
      ensures forall key :: key in rows <==> key in batch
      ensures forall key :: key in rows ==> rows[key] == MetaRow(parsers, key, cache[key].body)
    {
      hide MetaRow;
      rows := map[];
      for i := 0 to |batch|
        invariant forall key :: key in rows <==> key in batch[..i]
        invariant forall key :: key in rows ==> key in cache && rows[key] == MetaRow(parsers, key, cache[key].body)
      {
        var key := batch[i];
        assert batch[..i + 1] == batch[..i] + [key];
        rows := rows[key := MetaRow(parsers, key, cache[key].body)];
      }
      assert batch[..|batch|] == batch;
    }

    /** `_index_missing_game_meta` with the keys its query found. */
    method IndexMissing(missing: seq<string>)
      requires Behind(parsers, State())
      requires forall key :: key in missing <==> key in cache && Indexed(key) && key !in meta
      modifies `meta
      ensures Synced(parsers, State())
    {
      hide MetaRow, Indexed;
      var start := 0;
      while start < |missing|
        invariant 0 <= start <= |missing|
        invariant Behind(parsers, State())
        invariant forall key :: key in cache && Indexed(key) && key !in missing[start..] ==> key in meta
        decreases |missing| - start
      {
        var end := Min(start + GAME_META_INDEX_BATCH, |missing|);
        var batch := missing[start..end];
        assert missing[start..] == batch + missing[end..];
        assert forall key :: key in batch ==> key in missing && key in cache;
        var rows := MetaRows(batch);
        meta := meta + rows;
        start := end;
      }
    }
  }
}
