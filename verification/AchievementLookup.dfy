/**
 Which game an achievement belongs to (linux/raofflineproxy/rom_cache.py): the full map of the
 cached games, and the search that looks at likely games first and stops when it has them all.
 JSON parsing, the text filter and the database's row order are parameters.
 */
module AchievementLookup {
  import opened Bytes
  import Decimal
  import GameMetaIndex
  import Text

  const LIKELY_RECENT_GAMES := 10

  datatype Entry = Entry(key: string, body: string)

  /** One of the `Sets` of an achievement set body; `gameId` is its integer `GameId`, if any. */
  datatype Group = Group(gameId: Option<int>, ids: seq<int>)

  /** An achievement set body; `direct` are the ids under `Achievements`, if it is a list or dict. */
  datatype SetsBody = SetsBody(gameId: Option<int>, direct: Option<seq<int>>, groups: seq<Group>)

  /** Rows by key prefix, and what the bodies say: a body that is not JSON defines nothing. */
  datatype World = World(list: string -> seq<Entry>, patch: string -> seq<int>, sets: string -> SetsBody)

  /** Achievement `id` belongs to `game`, says some entry. */
  datatype Def = Def(id: int, game: int)

  function DefsOf(ids: seq<int>, game: int): seq<Def> {
    if ids == [] then []
    else (if ids[0] > 0 then [Def(ids[0], game)] else []) + DefsOf(ids[1..], game)
  }

  function PatchDefs(w: World, entry: Entry): seq<Def> {
    if !(GameMetaIndex.PATCH <= entry.key) then []
    else
      var game := GameMetaIndex.GameIdOf(entry.key[|GameMetaIndex.PATCH|..]);
      if game.None? then [] else DefsOf(w.patch(entry.body), game.value)
  }

  function GroupDefs(groups: seq<Group>, game: int): seq<Def> {
    if groups == [] then []
    else
      var own := groups[0].gameId;
      DefsOf(groups[0].ids, if own.Some? && own.value > 0 then own.value else game) + GroupDefs(groups[1..], game)
  }

  function SetsDefs(w: World, entry: Entry): seq<Def> {
    var body := w.sets(entry.body);
    if body.gameId.None? || body.gameId.value <= 0 then []
    else if body.direct.Some? then DefsOf(body.direct.value, body.gameId.value)
    else GroupDefs(body.groups, body.gameId.value)
  }

  function EntryDefs(w: World, entry: Entry, sets: bool): seq<Def> {
    if sets then SetsDefs(w, entry) else PatchDefs(w, entry)
  }

  function AllDefs(w: World, entries: seq<Entry>, sets: bool): seq<Def> {
    if entries == [] then []
    else AllDefs(w, entries[..|entries| - 1], sets) + EntryDefs(w, entries[|entries| - 1], sets)
  }

  /** The game of the first definition. */
  function First(defs: seq<Def>, id: int): Option<int> {
    if defs == [] then None else if defs[0].id == id then Some(defs[0].game) else First(defs[1..], id)
  }

  /** `ids` says for each achievement what the first definition says. */
  ghost predicate Maps(ids: map<int, int>, defs: seq<Def>) {
    forall id {:trigger First(defs, id)} :: (if id in ids then Some(ids[id]) else None) == First(defs, id)
  }

  lemma {:induction false} FirstOfBoth(a: seq<Def>, b: seq<Def>, id: int)
    ensures First(a + b, id) == if First(a, id).Some? then First(a, id) else First(b, id)
  {
    if a == [] {
      assert a + b == b;
    } else {
      assert (a + b)[0] == a[0] && (a + b)[1..] == a[1..] + b;
      FirstOfBoth(a[1..], b, id);
    }
  }

  lemma MapsMore(ids: map<int, int>, defs: seq<Def>, def: Def)
    requires Maps(ids, defs)
    ensures Maps(if def.id in ids then ids else ids[def.id := def.game], defs + [def])
  {
    forall id
      ensures First(defs + [def], id)
        == if First(defs, id).None? && id == def.id then Some(def.game) else First(defs, id)
    {
      FirstOfBoth(defs, [def], id);
    }
    assert First(defs, def.id).Some? <==> def.id in ids;
  }

  /** `setdefault` for each definition of one entry. */
  method AddDefs(ids: map<int, int>, ghost before: seq<Def>, defs: seq<Def>) returns (more: map<int, int>)
    requires Maps(ids, before)
    ensures Maps(more, before + defs)
  {
    hide Maps;
    more := ids;
    assert before + [] == before;
    for i := 0 to |defs|
      invariant Maps(more, before + defs[..i])
    {
      MapsMore(more, before + defs[..i], defs[i]);
      assert before + defs[..i + 1] == before + defs[..i] + [defs[i]];
      if defs[i].id !in more {
        more := more[defs[i].id := defs[i].game];
      }
    }
    assert defs[..|defs|] == defs;
  }

  lemma MapsNothing()
    ensures Maps(map[], [])
  {
  }

  /** `build_achievement_game_ids`: of several definitions the first counts, patches before sets. */
  method BuildAchievementGameIds(w: World, patches: seq<Entry>, sets: seq<Entry>) returns (ids: map<int, int>)
    ensures Maps(ids, AllDefs(w, patches, false) + AllDefs(w, sets, true))
  {
    hide Maps, PatchDefs, SetsDefs;
    ids := map[];
    MapsNothing();
    for i := 0 to |patches|
      invariant Maps(ids, AllDefs(w, patches[..i], false))
    {
      assert patches[..i + 1][..i] == patches[..i];
      ids := AddDefs(ids, AllDefs(w, patches[..i], false), PatchDefs(w, patches[i]));
    }
    assert patches[..|patches|] == patches;
    ghost var first := AllDefs(w, patches, false);
    assert first + [] == first;
    for i := 0 to |sets|
      invariant Maps(ids, first + AllDefs(w, sets[..i], true))
    {
      assert sets[..i + 1][..i] == sets[..i];
      ghost var before := first + AllDefs(w, sets[..i], true);
      ids := AddDefs(ids, before, SetsDefs(w, sets[i]));
      assert before + SetsDefs(w, sets[i]) == first + (AllDefs(w, sets[..i], true) + SetsDefs(w, sets[i]));
    }
    assert sets[..|sets|] == sets;
  }

  // What an entry defines.

  lemma {:induction false} DefsOfMembers(ids: seq<int>, game: int, d: Def)
    ensures d in DefsOf(ids, game) <==> d.id in ids && d.id > 0 && d.game == game
  {
    if ids != [] {
      DefsOfMembers(ids[1..], game, d);
      assert ids == [ids[0]] + ids[1..];
    }
  }

  /** A patch defines the positive ids of its body for the game in its key. */
  lemma PatchDefines(w: World, entry: Entry, d: Def)
    ensures d in PatchDefs(w, entry) <==>
      && |entry.key| >= 6 && entry.key[..6] == "patch:"
      && GameMetaIndex.GameIdOf(entry.key[6..]) == Some(d.game)
      && d.id in w.patch(entry.body) && d.id > 0
  {
    var game := GameMetaIndex.GameIdOf(if |entry.key| >= 6 then entry.key[6..] else "");
    if game.Some? {
      DefsOfMembers(w.patch(entry.body), game.value, d);
    }
  }

  /** The game of one of the sets: its own, if it has one, or else the one of the whole body. */
  predicate SetGame(own: Option<int>, body: int, game: int) {
    if own.Some? && own.value >= 1 then game == own.value else game == body
  }

  lemma {:induction false} GroupDefines(groups: seq<Group>, game: int, d: Def)
    ensures d in GroupDefs(groups, game) <==>
      exists i :: 0 <= i < |groups| && d.id in groups[i].ids && d.id > 0 && SetGame(groups[i].gameId, game, d.game)
  {
    if groups != [] {
      GroupDefines(groups[1..], game, d);
      var own := groups[0].gameId;
      DefsOfMembers(groups[0].ids, if own.Some? && own.value > 0 then own.value else game, d);
      assert forall i :: 1 <= i < |groups| ==> groups[i] == groups[1..][i - 1];
      if d in GroupDefs(groups[1..], game) {
        var i :| 0 <= i < |groups| - 1 && d.id in groups[1..][i].ids && d.id > 0
          && SetGame(groups[1..][i].gameId, game, d.game);
        assert groups[i + 1] == groups[1..][i];
      }
    }
  }

  /** An achievement set defines the positive ids of its list for its game, or without such a list those of
      its sets; without a positive game nothing. */
  lemma SetsDefine(w: World, entry: Entry, d: Def)
    ensures var body := w.sets(entry.body);
      d in SetsDefs(w, entry) <==>
      && body.gameId.Some? && body.gameId.value >= 1
      && match body.direct
         case Some(ids) => d.id in ids && d.id > 0 && d.game == body.gameId.value
         case None =>
           exists i :: 0 <= i < |body.groups| && d.id in body.groups[i].ids && d.id > 0
                       && SetGame(body.groups[i].gameId, body.gameId.value, d.game)
  {
    var body := w.sets(entry.body);
    if body.gameId.Some? {
      if body.direct.Some? {
        DefsOfMembers(body.direct.value, body.gameId.value, d);
      } else {
        GroupDefines(body.groups, body.gameId.value, d);
      }
    }
  }

  /** Of several sets the first that has an id decides its game. */
  lemma {:induction false} FirstGroup(groups: seq<Group>, game: int, id: int, i: nat) returns (d: int)
    requires i < |groups| && id > 0 && id in groups[i].ids
    requires forall j :: 0 <= j < i ==> id !in groups[j].ids
    ensures First(GroupDefs(groups, game), id) == Some(d) && SetGame(groups[i].gameId, game, d)
  {
    hide GroupDefs, First;
    var own := groups[0].gameId;
    var first := DefsOf(groups[0].ids, if own.Some? && own.value > 0 then own.value else game);
    GroupSplits(groups, game);
    FirstOfBoth(first, GroupDefs(groups[1..], game), id);
    DefsOfFirst(groups[0].ids, if own.Some? && own.value > 0 then own.value else game, id);
    if i == 0 {
      d := if own.Some? && own.value > 0 then own.value else game;
    } else {
      d := FirstGroup(groups[1..], game, id, i - 1);
    }
  }

  lemma GroupSplits(groups: seq<Group>, game: int)
    requires groups != []
    ensures var own := groups[0].gameId;
      GroupDefs(groups, game)
        == DefsOf(groups[0].ids, if own.Some? && own.value > 0 then own.value else game) + GroupDefs(groups[1..], game)
  {
  }

  lemma {:induction false} DefsOfFirst(ids: seq<int>, game: int, id: int)
    ensures First(DefsOf(ids, game), id) == if id in ids && id > 0 then Some(game) else None
  {
    if ids != [] {
      DefsOfFirst(ids[1..], game, id);
      FirstOfBoth(if ids[0] > 0 then [Def(ids[0], game)] else [], DefsOf(ids[1..], game), id);
      assert ids == [ids[0]] + ids[1..];
      FirstOfOne(Def(ids[0], game), id);
    }
  }

  lemma FirstOfOne(d: Def, id: int)
    ensures First([d], id) == (if d.id == id then Some(d.game) else None) && First([], id) == None
  {
    assert [d][1..] == [];
  }

  /** Entry by entry. */
  lemma {:induction false} AllDefsJoined(w: World, a: seq<Entry>, b: seq<Entry>, sets: bool)
    ensures AllDefs(w, a + b, sets) == AllDefs(w, a, sets) + AllDefs(w, b, sets)
    ensures forall e :: AllDefs(w, [e], sets) == EntryDefs(w, e, sets)
  {
    hide EntryDefs;
    forall e
      ensures AllDefs(w, [e], sets) == EntryDefs(w, e, sets)
    {
      assert [e][..0] == [];
      assert [] + EntryDefs(w, e, sets) == EntryDefs(w, e, sets);
    }
    if b == [] {
      assert a + b == a;
    } else {
      assert (a + b)[..|a + b| - 1] == a + b[..|b| - 1];
      AllDefsJoined(w, a, b[..|b| - 1], sets);
    }
  }

  // The search.

  function IntText(n: int): string {
    if n < 0 then ['-'] + Decimal.ToText(-n) else Decimal.ToText(n)
  }

  function PatchPrefix(game: int): string {
    GameMetaIndex.PATCH + (IntText(game) + [':'])
  }

  /** `dict.fromkeys`: each value where it occurs first. */
  function Distinct(s: seq<int>): seq<int> {
    if s == [] then []
    else
      var before, last := Distinct(s[..|s| - 1]), s[|s| - 1];
      if last in before then before else before + [last]
  }

  function Prefixes(games: seq<int>): (r: seq<string>)
    ensures |r| == |games| && forall i :: 0 <= i < |r| ==> r[i] == PatchPrefix(games[i])
  {
    seq(|games|, i requires 0 <= i < |games| => PatchPrefix(games[i]))
  }

  /** `likely_first_prefixes` */
  function LikelyFirstPrefixes(likely: Option<int>, recent: seq<int>): seq<string> {
    var newest := if |recent| > LIKELY_RECENT_GAMES then recent[..LIKELY_RECENT_GAMES] else recent;
    var games := (if likely.Some? then [likely.value] else []) + newest;
    Prefixes(Distinct(games)) + [GameMetaIndex.PATCH, GameMetaIndex.SETS]
  }

  /** Where a value stands first. */
  predicate FirstAt(s: seq<int>, i: nat, x: int) {
    i < |s| && s[i] == x && x !in s[..i]
  }

  /** The distinct values come in the order in which they first occur. */
  lemma {:induction false} DistinctInOrder(s: seq<int>, i: nat, j: nat) returns (k: nat, l: nat)
    requires i < j < |Distinct(s)|
    ensures k < l && FirstAt(s, k, Distinct(s)[i]) && FirstAt(s, l, Distinct(s)[j])
  {
    var front, last := s[..|s| - 1], s[|s| - 1];
    var before := Distinct(front);
    DistinctMeans(front);
    if j < |before| {
      k, l := DistinctInOrder(front, i, j);
      assert s[..l] == front[..l] && s[..k] == front[..k];
    } else {
      k := FirstOf(front, before[i]);
      l := |s| - 1;
      assert s[..k] == front[..k] && s[..l] == front;
    }
  }

  lemma {:induction false} FirstOf(s: seq<int>, x: int) returns (k: nat)
    requires x in s
    ensures FirstAt(s, k, x)
  {
    if s[0] == x {
      k := 0;
    } else {
      assert s == [s[0]] + s[1..];
      var rest := FirstOf(s[1..], x);
      k := rest + 1;
      assert s[..k] == [s[0]] + s[1..][..rest];
    }
  }

  function Likely(likely: Option<int>): seq<int> {
    if likely.Some? then [likely.value] else []
  }

  function Newest(recent: seq<int>): seq<int> {
    if |recent| > 10 then recent[..10] else recent
  }

  /** Looked up first is the likely game, then the ten played last in their order, none of them twice,
      and behind them all patches and all achievement sets. */
  lemma LikelyFirst(likely: Option<int>, recent: seq<int>) returns (games: seq<int>)
    ensures LikelyFirstPrefixes(likely, recent) == Prefixes(games) + ["patch:", "achievementsets:"]
    ensures forall i, j :: 0 <= i < j < |games| ==> games[i] != games[j]
    ensures forall g :: g in games <==> Some(g) == likely || exists i :: 0 <= i < |recent| && i < 10 && recent[i] == g
    ensures likely.Some? ==> games != [] && games[0] == likely.value
    ensures forall i, j :: 0 <= i < j < |games| && (likely.None? || i > 0) ==> PlayedBefore(recent, games[i], games[j])
  {
    games := Distinct(Likely(likely) + Newest(recent));
    LookedUp(likely, recent);
    hide LikelyFirstPrefixes, Prefixes, Distinct, PlayedBefore;
    DistinctMeans(Likely(likely) + Newest(recent));
    LikelyStaysFirst(likely, Newest(recent));
    forall i, j | 0 <= i < j < |games| && (likely.None? || i > 0)
      ensures PlayedBefore(recent, games[i], games[j])
    {
      RecentInOrder(likely, recent, i, j);
    }
    hide Newest;
    forall g
      ensures g in Newest(recent) <==> exists i :: 0 <= i < |recent| && i < 10 && recent[i] == g
    {
      NewestAre(recent, Newest(recent), g);
    }
  }

  lemma LookedUp(likely: Option<int>, recent: seq<int>)
    ensures LikelyFirstPrefixes(likely, recent)
      == Prefixes(Distinct(Likely(likely) + Newest(recent))) + ["patch:", "achievementsets:"]
  {
  }

  /** Of the ten games played last one stands before the other. */
  ghost predicate PlayedBefore(recent: seq<int>, g: int, h: int) {
    exists k, l ::
      && 0 <= k < l < |recent| && l < 10 && recent[k] == g && recent[l] == h
      && g !in recent[..k] && h !in recent[..l]
  }

  lemma RecentInOrder(likely: Option<int>, recent: seq<int>, i: nat, j: nat)
    requires i < j < |Distinct(Likely(likely) + Newest(recent))| && (likely.None? || i > 0)
    ensures var games := Distinct(Likely(likely) + Newest(recent)); PlayedBefore(recent, games[i], games[j])
  {
    hide Distinct;
    var first, newest := Likely(likely), Newest(recent);
    var games := Distinct(first + newest);
    DistinctMeans(first + newest);
    LikelyStaysFirst(likely, newest);
    var k, l := DistinctInOrder(first + newest, i, j);
    InRecent(likely, first, newest, k, games[i]);
    InRecent(likely, first, newest, l, games[j]);
    var m, n := k - |first|, l - |first|;
    assert recent[m] == games[i] && recent[n] == games[j];
    assert newest[..m] == recent[..m] && newest[..n] == recent[..n];
  }

  /** What comes behind the likely game stands first in the recent ones. */
  lemma InRecent(likely: Option<int>, first: seq<int>, newest: seq<int>, k: nat, g: int)
    requires first == if likely.Some? then [likely.value] else []
    requires FirstAt(first + newest, k, g) && (likely.Some? ==> g != likely.value)
    ensures |first| <= k && k - |first| < |newest| && newest[k - |first|] == g && g !in newest[..k - |first|]
  {
    assert (first + newest)[..k] == first + newest[..k - |first|];
  }

  lemma NewestAre(recent: seq<int>, newest: seq<int>, g: int)
    requires newest == if |recent| > 10 then recent[..10] else recent
    ensures g in newest <==> exists i :: 0 <= i < |recent| && i < 10 && recent[i] == g
  {
    if g in newest {
      var i :| 0 <= i < |newest| && newest[i] == g;
      assert recent[i] == g;
    }
    if i :| 0 <= i < |recent| && i < 10 && recent[i] == g {
      assert newest[i] == g;
    }
  }

  lemma {:induction false} LikelyStaysFirst(likely: Option<int>, newest: seq<int>)
    ensures likely.Some? ==>
      Distinct([likely.value] + newest) != [] && Distinct([likely.value] + newest)[0] == likely.value
    ensures likely.None? ==> Distinct([] + newest) == Distinct(newest)
  {
    assert [] + newest == newest;
    if likely.Some? {
      var all := [likely.value] + newest;
      if newest == [] {
        assert all[..0] == [];
        assert Distinct([]) == [];
      } else {
        assert all[..|all| - 1] == [likely.value] + newest[..|newest| - 1];
        LikelyStaysFirst(likely, newest[..|newest| - 1]);
      }
    }
  }

  /** The entries whose text passes the filter. */
  function Mentioning(entries: seq<Entry>, mentions: string -> bool): seq<Entry> {
    if entries == [] then []
    else
      var last := entries[|entries| - 1];
      Mentioning(entries[..|entries| - 1], mentions) + if mentions(last.body) then [last] else []
  }

  /** All definitions the search would come across without stopping. */
  function SearchDefs(w: World, prefixes: seq<string>, mentions: string -> bool): seq<Def> {
    if prefixes == [] then []
    else
      var last := prefixes[|prefixes| - 1];
      SearchDefs(w, prefixes[..|prefixes| - 1], mentions)
        + AllDefs(w, Mentioning(w.list(last), mentions), last == GameMetaIndex.SETS)
  }

  /** The definitions of the full map. */
  function FullDefs(w: World): seq<Def> {
    AllDefs(w, w.list(GameMetaIndex.PATCH), false) + AllDefs(w, w.list(GameMetaIndex.SETS), true)
  }

  /** `found` answers for the wanted ids, and for no others. */
  ghost predicate Answers(found: map<int, int>, wanted: set<int>, defs: seq<Def>) {
    && (forall id :: id in found ==> id in wanted)
    && (forall id :: id in wanted ==> (if id in found then Some(found[id]) else None) == First(defs, id))
  }

  lemma AnswersMore(found: map<int, int>, ids: map<int, int>, wanted: set<int>, before: seq<Def>, defs: seq<Def>)
    requires Answers(found, wanted, before) && Maps(ids, defs)
    ensures Answers((map id | id in ids && id in wanted :: ids[id]) + found, wanted, before + defs)
  {
    forall id
      ensures First(before + defs, id) == if First(before, id).Some? then First(before, id) else First(defs, id)
    {
      FirstOfBoth(before, defs, id);
    }
    assert forall id :: id in wanted ==> First(defs, id) == if id in ids then Some(ids[id]) else None;
  }

  /** Once every wanted id is found, looking further changes nothing. */
  lemma AnswersStay(found: map<int, int>, wanted: set<int>, before: seq<Def>, rest: seq<Def>)
    requires Answers(found, wanted, before) && |found| == |wanted|
    ensures Answers(found, wanted, before + rest)
  {
    assert forall id :: id in found.Keys ==> id in wanted;
    SameSize(found.Keys, wanted);
    forall id
      ensures First(before + rest, id) == if First(before, id).Some? then First(before, id) else First(rest, id)
    {
      FirstOfBoth(before, rest, id);
    }
  }

  lemma SameSize(a: set<int>, b: set<int>)
    requires a <= b && |a| == |b|
    ensures a == b
  {
    assert |b - a| == |b| - |a|;
  }

  lemma {:induction false} SearchDefsPrefix(w: World, prefixes: seq<string>, n: nat, mentions: string -> bool)
    requires n <= |prefixes|
    ensures SearchDefs(w, prefixes[..n], mentions) <= SearchDefs(w, prefixes, mentions)
  {
    if n < |prefixes| {
      SearchDefsPrefix(w, prefixes[..|prefixes| - 1], n, mentions);
      assert prefixes[..|prefixes| - 1][..n] == prefixes[..n];
    } else {
      assert prefixes[..n] == prefixes;
    }
  }

  lemma {:induction false} MentioningPrefix(entries: seq<Entry>, n: nat, mentions: string -> bool)
    requires n <= |entries|
    ensures Mentioning(entries[..n], mentions) <= Mentioning(entries, mentions)
  {
    if n < |entries| {
      MentioningPrefix(entries[..|entries| - 1], n, mentions);
      assert entries[..|entries| - 1][..n] == entries[..n];
    } else {
      assert entries[..n] == entries;
    }
  }

  lemma {:induction false} AllDefsPrefix(w: World, entries: seq<Entry>, n: nat, sets: bool)
    requires n <= |entries|
    ensures AllDefs(w, entries[..n], sets) <= AllDefs(w, entries, sets)
  {
    hide EntryDefs;
    if n < |entries| {
      AllDefsPrefix(w, entries[..|entries| - 1], n, sets);
      assert entries[..|entries| - 1][..n] == entries[..n];
    } else {
      assert entries[..n] == entries;
    }
  }

  /** What the first `j` rows give begins what all rows give. */
  lemma SeenIsPrefix(w: World, entries: seq<Entry>, j: nat, sets: bool, mentions: string -> bool)
    requires j <= |entries|
    ensures AllDefs(w, Mentioning(entries[..j], mentions), sets) <= AllDefs(w, Mentioning(entries, mentions), sets)
  {
    hide AllDefs, Mentioning;
    MentioningPrefix(entries, j, mentions);
    var some, all := Mentioning(entries[..j], mentions), Mentioning(entries, mentions);
    AllDefsPrefix(w, all, |some|, sets);
    assert all[..|some|] == some;
  }

  function Wanted(achievementIds: seq<int>): set<int> {
    set id | id in achievementIds && id > 0
  }

  /** One row of the search. */
  method SearchEntry(
      w: World, entry: Entry, sets: bool, wanted: set<int>, known: map<int, int>, ghost before: seq<Def>)
    returns (found: map<int, int>)
    requires Answers(known, wanted, before)
    ensures Answers(found, wanted, before + EntryDefs(w, entry, sets))
  {
    hide Answers, Maps, EntryDefs;
    var ids;
    if sets {
      ids := BuildAchievementGameIds(w, [], [entry]);
    } else {
      ids := BuildAchievementGameIds(w, [entry], []);
    }
    OneEntry(w, entry, sets);
    AnswersMore(known, ids, wanted, before, EntryDefs(w, entry, sets));
    found := (map id | id in ids && id in wanted :: ids[id]) + known;
  }

  lemma OneEntry(w: World, entry: Entry, sets: bool)
    ensures AllDefs(w, if sets then [] else [entry], false) + AllDefs(w, if sets then [entry] else [], true)
      == EntryDefs(w, entry, sets)
  {
    hide EntryDefs;
    assert [entry][..0] == [];
  }

  lemma OneRowMore(w: World, entries: seq<Entry>, j: nat, sets: bool, mentions: string -> bool)
    requires j < |entries|
    ensures AllDefs(w, Mentioning(entries[..j + 1], mentions), sets)
      == AllDefs(w, Mentioning(entries[..j], mentions), sets)
        + if mentions(entries[j].body) then EntryDefs(w, entries[j], sets) else []
  {
    hide EntryDefs;
    var some := Mentioning(entries[..j], mentions);
    assert entries[..j + 1][..j] == entries[..j];
    assert (some + [entries[j]])[..|some|] == some;
    assert some + [] == some;
  }

  /** The inner loop of the search; `stop` when all wanted ids are found. */
  method SearchEntries(
      w: World, entries: seq<Entry>, sets: bool, mentions: string -> bool, wanted: set<int>, known: map<int, int>,
      ghost before: seq<Def>)
    returns (found: map<int, int>, stop: bool)
    requires Answers(known, wanted, before)
    ensures Answers(found, wanted, before + AllDefs(w, Mentioning(entries, mentions), sets))
    ensures stop ==> |found| == |wanted|
  {
    hide Answers, EntryDefs, AllDefs, Mentioning;
    found := known;
    ghost var all := AllDefs(w, Mentioning(entries, mentions), sets);
    ghost var now := [];
    assert before + [] == before;
    Nothing(w, sets, mentions);
    assert entries[..0] == [];
    for j := 0 to |entries|
      invariant now == AllDefs(w, Mentioning(entries[..j], mentions), sets)
      invariant Answers(found, wanted, before + now)
    {
      OneRowMore(w, entries, j, sets, mentions);
      if mentions(entries[j].body) {
        found := SearchEntry(w, entries[j], sets, wanted, found, before + now);
        assert before + now + EntryDefs(w, entries[j], sets) == before + (now + EntryDefs(w, entries[j], sets));
        now := now + EntryDefs(w, entries[j], sets);
        if |found| == |wanted| {
          SeenIsPrefix(w, entries, j + 1, sets, mentions);
          AnswersStay(found, wanted, before + now, all[|now|..]);
          assert before + now + all[|now|..] == before + all;
          return found, true;
        }
      } else {
        assert now + [] == now;
      }
    }
    assert entries[..|entries|] == entries;
    stop := false;
  }

  lemma Nothing(w: World, sets: bool, mentions: string -> bool)
    ensures AllDefs(w, Mentioning([], mentions), sets) == []
  {
  }

  /** `find_achievement_game_ids`, which stops early: the answer is the one of the whole search. */
  method FindAchievementGameIds(
      w: World, achievementIds: seq<int>, mentions: string -> bool, likely: Option<int>, recent: seq<int>)
    returns (found: map<int, int>)
    ensures Answers(
      found, (set id | id in achievementIds && id > 0), SearchDefs(w, LikelyFirstPrefixes(likely, recent), mentions))
  {
    hide Answers, AllDefs, Mentioning, LikelyFirstPrefixes;
    var wanted := Wanted(achievementIds);
    var prefixes := LikelyFirstPrefixes(likely, recent);
    ghost var all := SearchDefs(w, prefixes, mentions);
    found := map[];
    AnswersNothing(wanted);
    if wanted == {} {
      AnswersStay(found, wanted, [], all);
      assert [] + all == all;
      return;
    }
    for i := 0 to |prefixes|
      invariant Answers(found, wanted, SearchDefs(w, prefixes[..i], mentions))
    {
      assert prefixes[..i + 1][..i] == prefixes[..i];
      var stop;
      found, stop := SearchEntries(
        w, w.list(prefixes[i]), prefixes[i] == GameMetaIndex.SETS, mentions, wanted, found,
        SearchDefs(w, prefixes[..i], mentions));
      if stop {
        ghost var now := SearchDefs(w, prefixes[..i + 1], mentions);
        SearchDefsPrefix(w, prefixes, i + 1, mentions);
        AnswersStay(found, wanted, now, all[|now|..]);
        assert now + all[|now|..] == all;
        return;
      }
    }
    assert prefixes[..|prefixes|] == prefixes;
  }

  lemma AnswersNothing(wanted: set<int>)
    ensures Answers(map[], wanted, [])
  {
  }

  // When the search answers what the full map says.

  predicate Defines(w: World, entry: Entry, sets: bool, id: int) {
    exists i :: 0 <= i < |EntryDefs(w, entry, sets)| && EntryDefs(w, entry, sets)[i].id == id
  }

  /** The listing by prefix is a selection of the rows listed for all patches. */
  ghost predicate ListsByPrefix(w: World) {
    && (forall e :: e in w.list(GameMetaIndex.PATCH) ==> GameMetaIndex.PATCH <= e.key)
    && (forall game, e :: e in w.list(PatchPrefix(game)) <==>
          e in w.list(GameMetaIndex.PATCH) && PatchPrefix(game) <= e.key)
  }

  /** Keys written by `cache_keys.patch`: the id is followed by a colon and has no leading zeros. */
  ghost predicate PlainKeys(w: World) {
    forall e :: e in w.list(GameMetaIndex.PATCH) && Game(e).Some? ==> PatchPrefix(Game(e).value) <= e.key
  }

  function Game(e: Entry): Option<nat> {
    if GameMetaIndex.PATCH <= e.key then GameMetaIndex.GameIdOf(e.key[|GameMetaIndex.PATCH|..]) else None
  }

  /** The text filter lets every body pass that defines a wanted id. */
  ghost predicate FilterPasses(w: World, mentions: string -> bool, wanted: set<int>) {
    && (forall e, id :: e in w.list(GameMetaIndex.PATCH) && id in wanted && Defines(w, e, false, id) ==>
          mentions(e.body))
    && (forall e, id :: e in w.list(GameMetaIndex.SETS) && id in wanted && Defines(w, e, true, id) ==> mentions(e.body))
  }

  /** Patches of different games do not define the same wanted achievement. */
  ghost predicate OneGameEach(w: World, wanted: set<int>) {
    forall a, b, id ::
      a in w.list(GameMetaIndex.PATCH) && b in w.list(GameMetaIndex.PATCH) && id in wanted
      && Defines(w, a, false, id) && Defines(w, b, false, id) ==>
        Game(a) == Game(b)
  }

  /** The search answers what the full map says, whichever games are likely. */
  ghost predicate SearchAgrees(w: World, mentions: string -> bool, wanted: set<int>) {
    forall likely, recent, id :: id in wanted ==>
      First(SearchDefs(w, LikelyFirstPrefixes(likely, recent), mentions), id) == First(FullDefs(w), id)
  }

  lemma {:induction false} FirstIsMember(defs: seq<Def>, id: int)
    ensures First(defs, id).Some? <==> exists i :: 0 <= i < |defs| && defs[i].id == id
    ensures First(defs, id).Some? ==> Def(id, First(defs, id).value) in defs
  {
    if defs != [] {
      FirstIsMember(defs[1..], id);
      assert forall i :: 1 <= i < |defs| ==> defs[i] == defs[1..][i - 1];
      if defs[0].id != id && First(defs, id).Some? {
        var i :| 0 <= i < |defs[1..]| && defs[1..][i].id == id;
        assert defs[i + 1].id == id;
      }
    }
  }

  lemma {:induction false} DefsOfGame(ids: seq<int>, game: int)
    ensures forall d :: d in DefsOf(ids, game) ==> d.game == game
  {
    if ids != [] {
      DefsOfGame(ids[1..], game);
    }
  }

  /** All definitions of a patch are for the game in its key. */
  lemma PatchDefsGame(w: World, e: Entry)
    ensures forall d :: d in PatchDefs(w, e) ==> Game(e) == Some(d.game)
  {
    if Game(e).Some? {
      DefsOfGame(w.patch(e.body), Game(e).value);
    }
  }

  lemma {:induction false} AllDefsMembers(w: World, entries: seq<Entry>, sets: bool, d: Def)
    ensures d in AllDefs(w, entries, sets) <==> exists e :: e in entries && d in EntryDefs(w, e, sets)
  {
    hide EntryDefs;
    if entries != [] {
      var before, last := entries[..|entries| - 1], entries[|entries| - 1];
      assert entries == before + [last];
      AllDefsMembers(w, before, sets, d);
    }
  }

  lemma {:induction false} MentioningMembers(entries: seq<Entry>, mentions: string -> bool, e: Entry)
    ensures e in Mentioning(entries, mentions) <==> e in entries && mentions(e.body)
  {
    if entries != [] {
      var before, last := entries[..|entries| - 1], entries[|entries| - 1];
      assert entries == before + [last];
      MentioningMembers(before, mentions, e);
    }
  }

  /** Leaving out entries that do not define `id` does not change its first definition. */
  lemma {:induction false} FilteredFirst(w: World, entries: seq<Entry>, sets: bool, mentions: string -> bool, id: int)
    requires forall e :: e in entries && Defines(w, e, sets, id) ==> mentions(e.body)
    ensures First(AllDefs(w, Mentioning(entries, mentions), sets), id) == First(AllDefs(w, entries, sets), id)
  {
    hide EntryDefs, First;
    if entries != [] {
      var before, last := entries[..|entries| - 1], entries[|entries| - 1];
      assert entries == before + [last];
      FilteredFirst(w, before, sets, mentions, id);
      var some := Mentioning(before, mentions);
      FirstOfBoth(AllDefs(w, before, sets), EntryDefs(w, last, sets), id);
      if mentions(last.body) {
        assert (some + [last])[..|some|] == some;
        FirstOfBoth(AllDefs(w, some, sets), EntryDefs(w, last, sets), id);
      } else {
        FirstIsMember(EntryDefs(w, last, sets), id);
        assert some + [] == some;
      }
    }
  }

  lemma {:induction false} SearchDefsMembers(w: World, prefixes: seq<string>, mentions: string -> bool, d: Def)
    ensures d in SearchDefs(w, prefixes, mentions) <==>
      exists i :: 0 <= i < |prefixes|
        && d in AllDefs(w, Mentioning(w.list(prefixes[i]), mentions), prefixes[i] == GameMetaIndex.SETS)
  {
    hide AllDefs, Mentioning;
    if prefixes != [] {
      var before, last := prefixes[..|prefixes| - 1], prefixes[|prefixes| - 1];
      SearchDefsMembers(w, before, mentions, d);
      assert forall i :: 0 <= i < |before| ==> prefixes[i] == before[i];
    }
  }

  lemma ReadsGame(key: string, game: nat)
    requires PatchPrefix(game) <= key
    ensures Game(Entry(key, "")) == Some(game)
  {
    hide Decimal.Number;
    var text := Decimal.ToText(game);
    var rest := key[|GameMetaIndex.PATCH|..];
    assert rest[..|text| + 1] == text + [':'];
    assert rest == text + [':'] + rest[|text| + 1..];
    Text.IndexOfSuffix(text, ':', rest[|text| + 1..]);
    assert rest[..|text|] == text;
    Decimal.NumberOfText(game);
  }

  lemma NotSets(game: int)
    ensures PatchPrefix(game) != GameMetaIndex.SETS && GameMetaIndex.PATCH != GameMetaIndex.SETS
  {
    assert PatchPrefix(game)[0] == 'p' && GameMetaIndex.SETS[0] == 'a' && GameMetaIndex.PATCH[0] == 'p';
  }

  /** What the search finds among the patches is defined by some cached patch, for its own game. */
  lemma PatchSearchSound(w: World, mentions: string -> bool, games: seq<int>, d: Def)
    requires ListsByPrefix(w) && d in SearchDefs(w, Prefixes(games) + [GameMetaIndex.PATCH], mentions)
    ensures exists e :: e in w.list(GameMetaIndex.PATCH) && Defines(w, e, false, d.id) && Game(e) == Some(d.game)
  {
    hide AllDefs, Mentioning, PatchPrefix, PatchDefs, Game;
    var prefixes := Prefixes(games) + [GameMetaIndex.PATCH];
    SearchDefsMembers(w, prefixes, mentions, d);
    var i :| 0 <= i < |prefixes|
      && d in AllDefs(w, Mentioning(w.list(prefixes[i]), mentions), prefixes[i] == GameMetaIndex.SETS);
    if i < |games| {
      NotSets(games[i]);
    } else {
      NotSets(0);
    }
    AllDefsMembers(w, Mentioning(w.list(prefixes[i]), mentions), false, d);
    var e :| e in Mentioning(w.list(prefixes[i]), mentions) && d in EntryDefs(w, e, false);
    MentioningMembers(w.list(prefixes[i]), mentions, e);
    PatchDefsGame(w, e);
  }

  /** And every wanted definition of a patch is found there. */
  lemma PatchSearchComplete(w: World, mentions: string -> bool, games: seq<int>, e: Entry, d: Def)
    requires e in w.list(GameMetaIndex.PATCH) && d in PatchDefs(w, e) && mentions(e.body)
    ensures First(SearchDefs(w, Prefixes(games) + [GameMetaIndex.PATCH], mentions), d.id).Some?
  {
    hide AllDefs, Mentioning, PatchPrefix, PatchDefs, First;
    var prefixes := Prefixes(games) + [GameMetaIndex.PATCH];
    assert prefixes[|games|] == GameMetaIndex.PATCH;
    NotSets(0);
    MentioningMembers(w.list(GameMetaIndex.PATCH), mentions, e);
    assert d in EntryDefs(w, e, false);
    AllDefsMembers(w, Mentioning(w.list(GameMetaIndex.PATCH), mentions), false, d);
    SearchDefsMembers(w, prefixes, mentions, d);
    var all := SearchDefs(w, prefixes, mentions);
    FirstIsMember(all, d.id);
    var i :| 0 <= i < |all| && all[i] == d;
  }

  lemma SearchSplits(w: World, mentions: string -> bool, games: seq<int>)
    ensures SearchDefs(w, Prefixes(games) + [GameMetaIndex.PATCH, GameMetaIndex.SETS], mentions)
      == SearchDefs(w, Prefixes(games) + [GameMetaIndex.PATCH], mentions)
        + AllDefs(w, Mentioning(w.list(GameMetaIndex.SETS), mentions), true)
  {
    hide AllDefs, Mentioning;
    var all := Prefixes(games) + [GameMetaIndex.PATCH, GameMetaIndex.SETS];
    assert all[..|all| - 1] == Prefixes(games) + [GameMetaIndex.PATCH];
  }

  lemma DefinesMember(w: World, e: Entry, sets: bool, id: int)
    ensures Defines(w, e, sets, id) <==> exists d :: d in EntryDefs(w, e, sets) && d.id == id
  {
    hide EntryDefs;
    if d :| d in EntryDefs(w, e, sets) && d.id == id {
      var i :| 0 <= i < |EntryDefs(w, e, sets)| && EntryDefs(w, e, sets)[i] == d;
    }
    if Defines(w, e, sets, id) {
      var i :| 0 <= i < |EntryDefs(w, e, sets)| && EntryDefs(w, e, sets)[i].id == id;
      assert EntryDefs(w, e, sets)[i] in EntryDefs(w, e, sets);
    }
  }

  /** What the patches say about `id` in the full map. */
  lemma FullPatchSound(w: World, id: int)
    requires ListsByPrefix(w)
    ensures var r := First(AllDefs(w, w.list(GameMetaIndex.PATCH), false), id);
      if r.Some? then
        exists e :: e in w.list(GameMetaIndex.PATCH) && Defines(w, e, false, id) && Game(e) == Some(r.value)
      else forall e :: e in w.list(GameMetaIndex.PATCH) ==> !Defines(w, e, false, id)
  {
    hide AllDefs, PatchDefs, Game, First, Defines;
    var patches := w.list(GameMetaIndex.PATCH);
    var defs := AllDefs(w, patches, false);
    FirstIsMember(defs, id);
    if First(defs, id).Some? {
      var d := Def(id, First(defs, id).value);
      AllDefsMembers(w, patches, false, d);
      var e :| e in patches && d in EntryDefs(w, e, false);
      PatchDefsGame(w, e);
      DefinesMember(w, e, false, id);
    } else {
      forall e | e in patches
        ensures !Defines(w, e, false, id)
      {
        DefinesMember(w, e, false, id);
        forall d | d in EntryDefs(w, e, false)
          ensures d.id != id
        {
          AllDefsMembers(w, patches, false, d);
        }
      }
    }
  }

  /** Without a conflict the order of looking does not matter. */
  lemma SearchFindsFull(w: World, mentions: string -> bool, wanted: set<int>, games: seq<int>, id: int)
    requires ListsByPrefix(w) && FilterPasses(w, mentions, wanted) && OneGameEach(w, wanted) && id in wanted
    ensures First(SearchDefs(w, Prefixes(games) + [GameMetaIndex.PATCH, GameMetaIndex.SETS], mentions), id)
      == First(FullDefs(w), id)
  {
    hide AllDefs, Mentioning, PatchPrefix, PatchDefs, Game, First, Defines, SearchDefs, ListsByPrefix;
    var patches, sets := w.list(GameMetaIndex.PATCH), w.list(GameMetaIndex.SETS);
    var a := SearchDefs(w, Prefixes(games) + [GameMetaIndex.PATCH], mentions);
    var full := AllDefs(w, patches, false);
    SearchSplits(w, mentions, games);
    FirstOfBoth(a, AllDefs(w, Mentioning(sets, mentions), true), id);
    FirstOfBoth(full, AllDefs(w, sets, true), id);
    FilteredFirst(w, sets, true, mentions, id);
    FullPatchSound(w, id);
    FirstIsMember(a, id);
    if First(a, id).Some? {
      PatchSearchSound(w, mentions, games, Def(id, First(a, id).value));
    }
    if First(full, id).Some? {
      var e :| e in patches && Defines(w, e, false, id);
      DefinesMember(w, e, false, id);
      var d :| d in EntryDefs(w, e, false) && d.id == id;
      PatchSearchComplete(w, mentions, games, e, d);
    }
  }

  /** With a conflict, asking for the other game first gives the other answer. */
  lemma ConflictShows(w: World, mentions: string -> bool, wanted: set<int>, e: Entry, id: int)
    requires ListsByPrefix(w) && PlainKeys(w) && FilterPasses(w, mentions, wanted) && id in wanted
    requires e in w.list(GameMetaIndex.PATCH) && Defines(w, e, false, id)
    ensures Game(e).Some?
    ensures First(SearchDefs(w, LikelyFirstPrefixes(Some(Game(e).value), []), mentions), id) == Some(Game(e).value)
  {
    hide AllDefs, Mentioning, PatchPrefix, PatchDefs, Game, First, Defines;
    DefinesMember(w, e, false, id);
    var d :| d in EntryDefs(w, e, false) && d.id == id;
    PatchDefsGame(w, e);
    var game := Game(e).value;
    var prefixes := LikelyFirstPrefixes(Some(game), []);
    assert Distinct([game]) == [game] by {
      assert [game][..0] == [];
      assert Distinct([]) == [];
    }
    assert [game] + [] == [game];
    assert prefixes[..1] == [PatchPrefix(game)];
    var entries := w.list(PatchPrefix(game));
    var first := AllDefs(w, Mentioning(entries, mentions), false);
    NotSets(game);
    assert [PatchPrefix(game)][..0] == [];
    assert SearchDefs(w, [PatchPrefix(game)], mentions) == first;
    SearchDefsPrefix(w, prefixes, 1, mentions);
    var all := SearchDefs(w, prefixes, mentions);
    assert all == first + all[|first|..];
    FirstOfBoth(first, all[|first|..], id);
    MentioningMembers(entries, mentions, e);
    AllDefsMembers(w, Mentioning(entries, mentions), false, d);
    FirstIsMember(first, id);
    var i :| 0 <= i < |first| && first[i] == d;
    OnlyThatGame(w, mentions, game, Def(id, First(first, id).value));
  }

  lemma OnlyThatGame(w: World, mentions: string -> bool, game: nat, d: Def)
    requires ListsByPrefix(w) && d in AllDefs(w, Mentioning(w.list(PatchPrefix(game)), mentions), false)
    ensures d.game == game
  {
    hide AllDefs, Mentioning, PatchPrefix, PatchDefs;
    var entries := w.list(PatchPrefix(game));
    AllDefsMembers(w, Mentioning(entries, mentions), false, d);
    var e :| e in Mentioning(entries, mentions) && d in EntryDefs(w, e, false);
    MentioningMembers(entries, mentions, e);
    PatchDefsGame(w, e);
    ReadsGame(e.key, game);
  }

  /** Looking first at likely games never changes an answer exactly when no two games' patches
      define the same wanted achievement. */
  lemma SearchAgreesExactly(w: World, mentions: string -> bool, wanted: set<int>)
    requires ListsByPrefix(w) && PlainKeys(w) && FilterPasses(w, mentions, wanted)
    ensures SearchAgrees(w, mentions, wanted) <==> OneGameEach(w, wanted)
  {
    hide ListsByPrefix, PlainKeys, FilterPasses, Defines, Game, First, SearchDefs, FullDefs;
    if OneGameEach(w, wanted) {
      forall likely: Option<int>, recent: seq<int>, id | id in wanted
        ensures First(SearchDefs(w, LikelyFirstPrefixes(likely, recent), mentions), id) == First(FullDefs(w), id)
      {
        var newest := if |recent| > LIKELY_RECENT_GAMES then recent[..LIKELY_RECENT_GAMES] else recent;
        SearchFindsFull(w, mentions, wanted, Distinct((if likely.Some? then [likely.value] else []) + newest), id);
      }
    }
    if SearchAgrees(w, mentions, wanted) {
      forall a, b, id |
        a in w.list(GameMetaIndex.PATCH) && b in w.list(GameMetaIndex.PATCH) && id in wanted
        && Defines(w, a, false, id) && Defines(w, b, false, id)
        ensures Game(a) == Game(b)
      {
        ConflictShows(w, mentions, wanted, a, id);
        ConflictShows(w, mentions, wanted, b, id);
      }
    }
  }

  // The unlocks a session starts with.

  /** What of a pending award matters here; `user` is `None` when its request names nobody. */
  datatype Award = Award(id: int, pending: bool, hardcore: bool, user: Option<string>)

  /** `is_pending_softcore_unlock` */
  predicate IsSoftcoreUnlock(award: Award, user: string) {
    award.pending && award.id > 0 && !award.hardcore && award.user == Some(user)
  }

  function PositiveIds(ids: seq<int>): seq<int> {
    if ids == [] then []
    else PositiveIds(ids[..|ids| - 1]) + if ids[|ids| - 1] > 0 then [ids[|ids| - 1]] else []
  }

  /** The ids of the user's pending unlocks that definitions place in `game`. */
  function PendingIds(awards: seq<Award>, defs: seq<Def>, game: int, user: string): seq<int> {
    if awards == [] then []
    else
      var last := awards[|awards| - 1];
      PendingIds(awards[..|awards| - 1], defs, game, user)
        + if IsSoftcoreUnlock(last, user) && First(defs, last.id) == Some(game) then [last.id] else []
  }

  /** Positive ids in their order. */
  lemma {:induction false} PositiveJoined(a: seq<int>, b: seq<int>)
    ensures PositiveIds(a + b) == PositiveIds(a) + PositiveIds(b)
    ensures forall id :: PositiveIds([id]) == if id >= 1 then [id] else []
  {
    forall id
      ensures PositiveIds([id]) == if id >= 1 then [id] else []
    {
      assert [id][..0] == [];
    }
    if b == [] {
      assert a + b == a;
    } else {
      assert (a + b)[..|a + b| - 1] == a + b[..|b| - 1];
      PositiveJoined(a, b[..|b| - 1]);
    }
  }

  /** Award by award in their order: one counts that is pending, not hardcore, the user's own and of this
      game. */
  lemma {:induction false} PendingJoined(a: seq<Award>, b: seq<Award>, defs: seq<Def>, game: int, user: string)
    ensures PendingIds(a + b, defs, game, user) == PendingIds(a, defs, game, user) + PendingIds(b, defs, game, user)
    ensures forall award ::
      PendingIds([award], defs, game, user)
        == if award.pending && !award.hardcore && award.user == Some(user) && award.id >= 1
              && First(defs, award.id) == Some(game) then [award.id] else []
  {
    hide First;
    forall award
      ensures PendingIds([award], defs, game, user)
        == if award.pending && !award.hardcore && award.user == Some(user) && award.id >= 1
              && First(defs, award.id) == Some(game) then [award.id] else []
    {
      assert [award][..0] == [];
    }
    if b == [] {
      assert a + b == a;
    } else {
      assert (a + b)[..|a + b| - 1] == a + b[..|b| - 1];
      PendingJoined(a, b[..|b| - 1], defs, game, user);
    }
  }

  lemma {:induction false} DistinctMeans(s: seq<int>)
    ensures forall id :: id in Distinct(s) <==> id in s
    ensures forall i, j :: 0 <= i < j < |Distinct(s)| ==> Distinct(s)[i] != Distinct(s)[j]
  {
    if s != [] {
      var before, last := s[..|s| - 1], s[|s| - 1];
      assert s == before + [last];
      DistinctMeans(before);
    }
  }

  /** One more value is kept if it is new. */
  function WithNew(s: seq<int>, id: int): seq<int> {
    if id in s then s else s + [id]
  }

  lemma OneCachedMore(cached: seq<int>, i: nat)
    requires i < |cached|
    ensures Distinct(PositiveIds(cached[..i + 1]))
      == var before := Distinct(PositiveIds(cached[..i])); if cached[i] > 0 then WithNew(before, cached[i]) else before
  {
    assert cached[..i + 1][..i] == cached[..i];
    var before := PositiveIds(cached[..i]);
    assert before + [] == before;
    assert (before + [cached[i]])[..|before|] == before;
  }

  lemma OneAwardMore(first: seq<int>, awards: seq<Award>, i: nat, defs: seq<Def>, game: int, user: string)
    requires i < |awards|
    ensures Distinct(first + PendingIds(awards[..i + 1], defs, game, user))
      == var before := Distinct(first + PendingIds(awards[..i], defs, game, user));
         if IsSoftcoreUnlock(awards[i], user) && First(defs, awards[i].id) == Some(game) then
           WithNew(before, awards[i].id)
         else before
  {
    hide First, IsSoftcoreUnlock;
    assert awards[..i + 1][..i] == awards[..i];
    var before := PendingIds(awards[..i], defs, game, user);
    assert before + [] == before;
    var id := awards[i].id;
    assert first + (before + [id]) == first + before + [id];
    assert (first + before + [id])[..|first + before|] == first + before;
  }

  /** `merge_start_session_unlock_ids`: the cached unlocks, then the pending ones of this game, each
      once. */
  method MergeStartSessionUnlockIds(
      cached: seq<int>, awards: seq<Award>, games: map<int, int>, ghost defs: seq<Def>, game: int, user: string)
    returns (merged: seq<int>)
    requires forall i :: 0 <= i < |awards| && IsSoftcoreUnlock(awards[i], user) ==>
      (if awards[i].id in games then Some(games[awards[i].id]) else None) == First(defs, awards[i].id)
    ensures merged == Distinct(PositiveIds(cached) + PendingIds(awards, defs, game, user))
    ensures forall i, j :: 0 <= i < j < |merged| ==> merged[i] != merged[j]
    ensures forall id :: id in merged <==> id in PositiveIds(cached) || id in PendingIds(awards, defs, game, user)
  {
    hide First;
    DistinctMeans(PositiveIds(cached) + PendingIds(awards, defs, game, user));
    merged := [];
    assert Distinct(PositiveIds(cached[..0])) == [];
    hide Distinct, PositiveIds, IsSoftcoreUnlock;
    var seen: set<int> := {};
    for i := 0 to |cached|
      invariant merged == Distinct(PositiveIds(cached[..i]))
      invariant forall id :: id in seen <==> id in merged
    {
      OneCachedMore(cached, i);
      var id := cached[i];
      if id <= 0 || id in seen {
        continue;
      }
      merged := merged + [id];
      seen := seen + {id};
    }
    assert cached[..|cached|] == cached;
    ghost var first := PositiveIds(cached);
    assert first + PendingIds(awards[..0], defs, game, user) == first;
    hide PendingIds;
    for i := 0 to |awards|
      invariant merged == Distinct(first + PendingIds(awards[..i], defs, game, user))
      invariant forall id :: id in seen <==> id in merged
    {
      OneAwardMore(first, awards, i, defs, game, user);
      var id := awards[i].id;
      if !IsSoftcoreUnlock(awards[i], user) || id in seen || id !in games || games[id] != game {
        continue;
      }
      merged := merged + [id];
      seen := seen + {id};
    }
    assert awards[..|awards|] == awards;
  }

  /** `pending_unlock_achievement_ids` */
  function UnlockIds(awards: seq<Award>, user: string): (ids: seq<int>)
    ensures forall i :: 0 <= i < |awards| && IsSoftcoreUnlock(awards[i], user) ==> awards[i].id in ids
    ensures forall id :: id in ids ==> id > 0
  {
    if awards == [] then []
    else
      var rest := UnlockIds(awards[1..], user);
      assert forall i :: 1 <= i < |awards| ==> awards[i] == awards[1..][i - 1];
      (if IsSoftcoreUnlock(awards[0], user) then [awards[0].id] else []) + rest
  }

  /** `merged_unlock_ids`, with the search instead of the full map: a session starts with the same unlocks. */
  method MergedUnlockIds(
      w: World, cached: seq<int>, awards: seq<Award>, mentions: string -> bool, recent: seq<int>, game: int,
      user: string)
    returns (merged: seq<int>)
    requires ListsByPrefix(w) && PlainKeys(w)
    requires FilterPasses(w, mentions, Wanted(UnlockIds(awards, user)))
    requires OneGameEach(w, Wanted(UnlockIds(awards, user)))
    ensures merged == Distinct(PositiveIds(cached) + PendingIds(awards, FullDefs(w), game, user))
  {
    hide ListsByPrefix, PlainKeys, FilterPasses, OneGameEach, First, SearchDefs, FullDefs, LikelyFirstPrefixes,
      PendingIds;
    ghost var wanted := Wanted(UnlockIds(awards, user));
    var games := FindAchievementGameIds(w, UnlockIds(awards, user), mentions, Some(game), recent);
    SearchAgreesExactly(w, mentions, wanted);
    merged := MergeStartSessionUnlockIds(cached, awards, games, FullDefs(w), game, user);
  }
}
