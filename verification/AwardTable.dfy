/**
 The pending-award table (linux/raofflineproxy/storage.py): unique achievement ids, growing row
 ids, and every query in `(queuedAt, id)` order. A `Table` is the rows in that order; the storage
 keeps them as they were inserted.
 */
module AwardTable {
  import opened Bytes
  import opened AwardChain

  const WARNING_ACHIEVEMENT_ID := 101000001

  datatype Table = Table(rows: seq<Award>, nextId: nat)

  predicate Before(a: Award, b: Award) {
    a.queuedAt < b.queuedAt || (a.queuedAt == b.queuedAt && a.id < b.id)
  }

  predicate Ordered(rows: seq<Award>) {
    forall i, j :: 0 <= i < j < |rows| ==> Before(rows[i], rows[j])
  }

  predicate DistinctKeys(rows: seq<Award>) {
    forall i, j :: 0 <= i < j < |rows| ==> rows[i].achievementId != rows[j].achievementId && rows[i].id != rows[j].id
  }

  predicate ValidTable(t: Table) {
    && Ordered(t.rows) && DistinctKeys(t.rows)
    && forall i :: 0 <= i < |t.rows| ==> t.rows[i].id < t.nextId && t.rows[i].achievementId != WARNING_ACHIEVEMENT_ID
  }

  function IndexOf(rows: seq<Award>, achievementId: int): (r: Option<nat>)
    ensures r.Some? ==> r.value < |rows| && rows[r.value].achievementId == achievementId
    ensures r.None? ==> forall i :: 0 <= i < |rows| ==> rows[i].achievementId != achievementId
  {
    if rows == [] then None
    else if rows[|rows| - 1].achievementId == achievementId then Some(|rows| - 1)
    else IndexOf(rows[..|rows| - 1], achievementId)
  }

  /** How many rows come before `a`. */
  function Place(rows: seq<Award>, a: Award): (p: nat)
    ensures p <= |rows|
  {
    if rows == [] then 0
    else if Before(rows[|rows| - 1], a) then |rows|
    else Place(rows[..|rows| - 1], a)
  }

  function Insert(rows: seq<Award>, a: Award): (r: seq<Award>)
    ensures |r| == |rows| + 1
  {
    var p := Place(rows, a);
    rows[..p] + [a] + rows[p..]
  }

  function Without(rows: seq<Award>, i: nat): (r: seq<Award>)
    requires i < |rows|
    ensures |r| == |rows| - 1
  {
    rows[..i] + rows[i + 1..]
  }

  /** `upsert_pending_award`: the row id of an existing achievement stays. */
  function Upsert(t: Table, a: Award): Table {
    if a.achievementId == WARNING_ACHIEVEMENT_ID then t
    else
      match IndexOf(t.rows, a.achievementId)
      case Some(i) => t.(rows := Insert(Without(t.rows, i), a.(id := t.rows[i].id)))
      case None => Table(Insert(t.rows, a.(id := t.nextId)), t.nextId + 1)
  }

  /** `delete_pending_awards_by_statuses` with every status but pending. */
  function KeepPending(rows: seq<Award>): (r: seq<Award>)
    ensures forall a <- r :: a in rows && a.status == Pending
    ensures forall a <- rows :: a.status == Pending ==> a in r
  {
    if rows == [] then []
    else
      var rest := KeepPending(rows[..|rows| - 1]);
      if rows[|rows| - 1].status == Pending then rest + [rows[|rows| - 1]] else rest
  }

  predicate AnyPending(rows: seq<Award>) {
    exists a <- rows :: a.status == Pending
  }

  lemma {:induction false} PlaceSplits(rows: seq<Award>, a: Award)
    requires Ordered(rows)
    ensures forall i :: 0 <= i < |rows| ==> (i < Place(rows, a) <==> Before(rows[i], a))
  {
    if rows != [] && !Before(rows[|rows| - 1], a) {
      PlaceSplits(rows[..|rows| - 1], a);
    }
  }

  lemma InsertOrdered(rows: seq<Award>, a: Award)
    requires Ordered(rows) && forall i :: 0 <= i < |rows| ==> rows[i].id != a.id
    ensures Ordered(Insert(rows, a))
  {
    PlaceSplits(rows, a);
  }

  /** `to` is `from` with `a` stored under some row id and only its achievement's row replaced. */
  ghost predicate Upserted(from: seq<Award>, to: seq<Award>, a: Award) {
    && (exists b <- to :: b == a.(id := b.id))
    && (forall b <- to :: b in from || b == a.(id := b.id))
    && (forall b <- from :: b.achievementId != a.achievementId ==> b in to)
  }

  lemma UpsertRows(t: Table, a: Award)
    requires ValidTable(t)
    ensures ValidTable(Upsert(t, a))
    ensures
      if a.achievementId == WARNING_ACHIEVEMENT_ID then Upsert(t, a) == t
      else Upserted(t.rows, Upsert(t, a).rows, a)
  {
    hide Insert, IndexOf, Without, Before;
    if a.achievementId != WARNING_ACHIEVEMENT_ID {
      match IndexOf(t.rows, a.achievementId) {
        case Some(i) =>
          WithoutMembers(t.rows, i);
          WithoutIsValid(t, i);
          StoreRow(Without(t.rows, i), a.(id := t.rows[i].id), t.nextId);
        case None =>
          StoreRow(t.rows, a.(id := t.nextId), t.nextId + 1);
      }
    }
  }

  lemma WithoutIsValid(t: Table, i: nat)
    requires ValidTable(t) && i < |t.rows|
    ensures ValidTable(t.(rows := Without(t.rows, i)))
    ensures forall j :: 0 <= j < |t.rows| - 1 ==>
      Without(t.rows, i)[j].id != t.rows[i].id && Without(t.rows, i)[j].achievementId != t.rows[i].achievementId
  {
    hide Before;
    assert forall j :: 0 <= j < |t.rows| - 1 ==> Without(t.rows, i)[j] == t.rows[if j < i then j else j + 1];
  }

  /** Storing a row whose keys are new. */
  lemma StoreRow(rows: seq<Award>, a: Award, nextId: nat)
    requires ValidTable(Table(rows, nextId)) && a.id < nextId && a.achievementId != WARNING_ACHIEVEMENT_ID
    requires forall i :: 0 <= i < |rows| ==> rows[i].id != a.id && rows[i].achievementId != a.achievementId
    ensures ValidTable(Table(Insert(rows, a), nextId))
    ensures forall b :: b in Insert(rows, a) <==> b in rows || b == a
  {
    hide Before, Place;
    InsertOrdered(rows, a);
    InsertMembers(rows, a);
  }

  lemma InsertMembers(rows: seq<Award>, a: Award)
    ensures forall b :: b in Insert(rows, a) <==> b in rows || b == a
  {
    var p := Place(rows, a);
    assert rows == rows[..p] + rows[p..];
  }

  lemma WithoutMembers(rows: seq<Award>, i: nat)
    requires i < |rows| && DistinctKeys(rows)
    ensures forall b :: b in Without(rows, i) <==> b in rows && b.achievementId != rows[i].achievementId
  {
    assert rows == rows[..i] + [rows[i]] + rows[i + 1..];
  }

  lemma {:induction false} PlaceIs(rows: seq<Award>, a: Award, p: nat)
    requires p <= |rows|
    requires forall j :: 0 <= j < p ==> Before(rows[j], a)
    requires forall j :: p <= j < |rows| ==> !Before(rows[j], a)
    ensures Place(rows, a) == p
  {
    if p < |rows| {
      PlaceIs(rows[..|rows| - 1], a, p);
    }
  }

  lemma ReplaceInOrder(rows: seq<Award>, i: nat, stored: Award)
    requires Ordered(rows) && i < |rows|
    requires stored.id == rows[i].id && stored.queuedAt == rows[i].queuedAt
    ensures Insert(Without(rows, i), stored) == rows[i := stored]
  {
    var rest := Without(rows, i);
    forall j | i <= j < |rest|
      ensures !Before(rest[j], stored)
    {
      assert rest[j] == rows[j + 1] && Before(rows[i], rows[j + 1]);
    }
    forall j | 0 <= j < i
      ensures Before(rest[j], stored)
    {
      assert Before(rows[j], rows[i]);
    }
    PlaceIs(rest, stored, i);
  }

  /** Writing back a row without touching when it was queued leaves it in its place. */
  lemma UpsertInPlace(t: Table, i: nat, a: Award)
    requires ValidTable(t) && i < |t.rows|
    requires a.achievementId == t.rows[i].achievementId && a.queuedAt == t.rows[i].queuedAt
    ensures Upsert(t, a) == t.(rows := t.rows[i := a.(id := t.rows[i].id)])
  {
    hide Ordered, Insert, Without;
    assert IndexOf(t.rows, a.achievementId) == Some(i);
    ReplaceInOrder(t.rows, i, a.(id := t.rows[i].id));
  }

  /** An award queued no earlier than all others goes to the end. */
  lemma UpsertAtEnd(t: Table, a: Award)
    requires ValidTable(t) && a.achievementId != WARNING_ACHIEVEMENT_ID
    requires IndexOf(t.rows, a.achievementId).None?
    requires forall i :: 0 <= i < |t.rows| ==> t.rows[i].queuedAt <= a.queuedAt
    ensures Upsert(t, a) == Table(t.rows + [a.(id := t.nextId)], t.nextId + 1)
  {
    PlaceSplits(t.rows, a.(id := t.nextId));
  }

  lemma {:induction false} KeepPendingKeepsOrder(rows: seq<Award>)
    requires Ordered(rows) && DistinctKeys(rows)
    ensures Ordered(KeepPending(rows)) && DistinctKeys(KeepPending(rows))
  {
    if rows != [] {
      var front := rows[..|rows| - 1];
      KeepPendingKeepsOrder(front);
      forall a | a in KeepPending(front)
        ensures Before(a, rows[|rows| - 1])
        ensures a.achievementId != rows[|rows| - 1].achievementId && a.id != rows[|rows| - 1].id
      {
        var i :| 0 <= i < |front| && front[i] == a;
        assert rows[i] == a;
      }
    }
  }

  lemma {:induction false} NoneKept(rows: seq<Award>)
    requires !AnyPending(rows)
    ensures KeepPending(rows) == []
  {
    if rows != [] {
      NoneKept(rows[..|rows| - 1]);
    }
  }

  // The storage.

  ghost predicate SameRows(a: seq<Award>, b: seq<Award>) {
    |a| == |b| && forall r :: r in a <==> r in b
  }

  /** Two lists in order that have the same rows are the same. */
  lemma {:induction false} OrderedIsUnique(a: seq<Award>, b: seq<Award>)
    requires Ordered(a) && Ordered(b) && SameRows(a, b)
    ensures a == b
  {
    hide Before;
    if a != [] {
      var front, rest := a[..|a| - 1], b[..|b| - 1];
      SameLast(a, b);
      FrontMembers(a);
      FrontMembers(b);
      forall r
        ensures r in front <==> r in rest
      {
        assert r in a <==> r in b;
      }
      OrderedIsUnique(front, rest);
      assert a == front + [a[|a| - 1]] && b == rest + [b[|b| - 1]];
    }
  }

  lemma SameLast(a: seq<Award>, b: seq<Award>)
    requires a != [] && Ordered(a) && Ordered(b) && SameRows(a, b)
    ensures a[|a| - 1] == b[|b| - 1]
  {
    var x, y := a[|a| - 1], b[|b| - 1];
    assert x in b && y in a;
    var i :| 0 <= i < |a| && a[i] == y;
    var j :| 0 <= j < |b| && b[j] == x;
    assert i < |a| - 1 ==> Before(y, x);
    assert j < |b| - 1 ==> Before(x, y);
  }

  lemma FrontMembers(a: seq<Award>)
    requires a != [] && Ordered(a)
    ensures forall r :: r in a[..|a| - 1] <==> r in a && r != a[|a| - 1]
  {
    var front, last := a[..|a| - 1], a[|a| - 1];
    assert a == front + [last];
    assert forall i :: 0 <= i < |front| ==> Before(front[i], last);
  }

  /** The rows after an upsert: those of other achievements, and the award under its row id. */
  lemma UpsertMembers(t: Table, a: Award)
    requires ValidTable(t) && a.achievementId != WARNING_ACHIEVEMENT_ID
    ensures var to, i := Upsert(t, a), IndexOf(t.rows, a.achievementId);
      var stored := a.(id := if i.Some? then t.rows[i.value].id else t.nextId);
      && (forall b :: b in to.rows <==> (b in t.rows && b.achievementId != a.achievementId) || b == stored)
      && |to.rows| == |t.rows| + (if i.Some? then 0 else 1)
      && to.nextId == t.nextId + if i.Some? then 0 else 1
  {
    hide Insert, Without;
    match IndexOf(t.rows, a.achievementId) {
      case Some(i) =>
        WithoutMembers(t.rows, i);
        InsertMembers(Without(t.rows, i), a.(id := t.rows[i].id));
      case None =>
        InsertMembers(t.rows, a.(id := t.nextId));
    }
  }

  /** Changing one row where it stands. */
  lemma ReplacedMembers(rows: seq<Award>, k: nat, a: Award)
    requires k < |rows| && DistinctKeys(rows)
    ensures forall b :: b in rows[k := a] <==> (b in rows && b.achievementId != rows[k].achievementId) || b == a
  {
    var to := rows[k := a];
    assert forall i :: 0 <= i < |rows| && i != k ==> to[i] == rows[i];
    forall b | (b in rows && b.achievementId != rows[k].achievementId) || b == a
      ensures b in to
    {
      if b == a {
        assert to[k] == a;
      } else {
        var i :| 0 <= i < |rows| && rows[i] == b;
        assert to[i] == b;
      }
    }
  }

  /** Rows as they were inserted, with distinct keys, and the table they make. */
  ghost predicate Holds(stored: seq<Award>, t: Table) {
    DistinctKeys(stored) && SameRows(stored, t.rows) && ValidTable(t)
  }

  lemma ReplaceHolds(stored: seq<Award>, t: Table, k: nat, a: Award)
    requires Holds(stored, t) && k < |stored| && stored[k].achievementId == a.achievementId
    ensures Holds(stored[k := a.(id := stored[k].id)], Upsert(t, a)) && Upsert(t, a).nextId == t.nextId
  {
    hide Upsert, Ordered;
    assert stored[k] in t.rows;
    SameRow(t.rows, stored[k]);
    UpsertRows(t, a);
    UpsertMembers(t, a);
    ReplacedMembers(stored, k, a.(id := stored[k].id));
  }

  lemma SameRow(rows: seq<Award>, row: Award)
    requires DistinctKeys(rows) && row in rows
    ensures IndexOf(rows, row.achievementId).Some? && rows[IndexOf(rows, row.achievementId).value] == row
  {
    var i :| 0 <= i < |rows| && rows[i] == row;
    assert IndexOf(rows, row.achievementId).Some?;
  }

  lemma AppendHolds(stored: seq<Award>, t: Table, a: Award)
    requires Holds(stored, t) && a.achievementId != WARNING_ACHIEVEMENT_ID
    requires forall i :: 0 <= i < |stored| ==> stored[i].achievementId != a.achievementId
    ensures Holds(stored + [a.(id := t.nextId)], Upsert(t, a)) && Upsert(t, a).nextId == t.nextId + 1
  {
    hide Upsert, Ordered;
    forall i | 0 <= i < |t.rows|
      ensures t.rows[i].achievementId != a.achievementId
    {
      assert t.rows[i] in stored;
    }
    UpsertRows(t, a);
    UpsertMembers(t, a);
    forall i | 0 <= i < |stored|
      ensures stored[i].id < t.nextId
    {
      assert stored[i] in t.rows;
    }
  }

  /** The storage object, with the table it makes; each method states the whole new table. */
  class Storage {
    var stored: seq<Award>
    var nextId: nat
    ghost var table: Table

    ghost predicate Valid()
      reads this
      ensures Valid() ==> ValidTable(table)
    {
      Holds(stored, table) && table.nextId == nextId
    }

    constructor ()
      ensures Valid() && table == Table([], 1)
    {
      stored, nextId, table := [], 1, Table([], 1);
    }

    /** `get_pending_awards`: the stored rows sorted by `(queuedAt, id)`. */
    method GetPendingAwards() returns (awards: seq<Award>)
      requires Valid()
      ensures Ordered(awards) && SameRows(awards, stored)
      ensures awards == table.rows
    {
      hide Insert;
      awards := [];
      for i := 0 to |stored|
        invariant Ordered(awards) && SameRows(awards, stored[..i])
      {
        assert stored[..i + 1] == stored[..i] + [stored[i]];
        forall j | 0 <= j < |awards|
          ensures awards[j].id != stored[i].id
        {
          assert awards[j] in stored[..i];
        }
        InsertOrdered(awards, stored[i]);
        InsertMembers(awards, stored[i]);
        awards := Insert(awards, stored[i]);
      }
      assert stored[..|stored|] == stored;
      OrderedIsUnique(awards, table.rows);
    }

    /** `upsert_pending_award` and `update_pending_award`: an achievement's row changes where it
        stands, a new one is appended. */
    method UpsertPendingAward(a: Award)
      requires Valid()
      modifies this
      ensures table == Upsert(old(table), a) && Valid()
    {
      hide Holds, Upsert;
      if a.achievementId == WARNING_ACHIEVEMENT_ID {
        NothingUpserted(table, a);
        return;
      }
      match IndexOf(stored, a.achievementId) {
        case Some(k) =>
          ReplaceHolds(stored, table, k, a);
          stored := stored[k := a.(id := stored[k].id)];
        case None =>
          AppendHolds(stored, table, a);
          stored, nextId := stored + [a.(id := nextId)], nextId + 1;
      }
      table := Upsert(table, a);
    }

    /** `purge_processed_awards_if_safe` with nothing in between its check and its delete. */
    method PurgeIfSafe()
      requires Valid()
      modifies this
      ensures Valid()
      ensures table == if AnyPending(old(table).rows) then old(table) else old(table).(rows := [])
    {
      if AnyPending(stored) {
        return;
      }
      NoneKept(stored);
      stored := KeepPending(stored);
      table := table.(rows := []);
    }
  }

  lemma NothingUpserted(t: Table, a: Award)
    requires a.achievementId == WARNING_ACHIEVEMENT_ID
    ensures Upsert(t, a) == t
  {
  }
}
