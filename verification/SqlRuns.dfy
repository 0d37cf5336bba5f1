/** What the SQL source's refreshes make of the cache, for every table and over every run of writes,
    lookups and refreshes. */
module SqlRuns {
  import opened Base
  import opened SqlSource
  import RouteCache
  import Lru

  type Table = t: map<string, Row> | forall k :: k in t ==> t[k].key == k

  /** What a reader of the table finds under a key. */
  function Shown(table: Table, softDelete: bool, key: string): Option<RouteCache.Cached> {
    if key in table && !(softDelete && table[key].deleted) && table[key].data.Parsed?
    then Some(table[key].data.config) else None
  }

  ghost predicate FromTable(rows: seq<Row>, table: Table) {
    forall i :: 0 <= i < |rows| ==> rows[i].key in table && table[rows[i].key] == rows[i]
  }

  /** The answer of a full query: the rows that are not soft-deleted. */
  ghost predicate IsFullAnswer(rows: seq<Row>, table: Table, softDelete: bool) {
    && FromTable(rows, table)
    && (forall i :: 0 <= i < |rows| ==> !(softDelete && rows[i].deleted))
    && (forall k :: k in table && !(softDelete && table[k].deleted) ==> table[k] in rows)
  }

  /** The answer of the query above the cursor: those rows, in ascending order. */
  ghost predicate IsChanges(rows: seq<Row>, table: Table, cursor: Stamp) {
    && FromTable(rows, table)
    && (forall i :: 0 <= i < |rows| ==> Later(rows[i].Stamped(), cursor))
    && (forall k :: k in table && Later(table[k].Stamped(), cursor) ==> table[k] in rows)
    && (forall i, j :: 0 <= i < j < |rows| ==> Later(rows[j].Stamped(), rows[i].Stamped()))
  }

  /** The stored keys are among the given ones, and the cache has room for all of those. */
  ghost predicate Roomy(s: RouteCache.State, keys: set<string>) {
    s.Valid() && |keys| <= s.maxSize && forall i :: 0 <= i < |s.lru| ==> s.lru[i].key in keys
  }

  // ----- single cache operations with room to spare

  lemma SetWithRoom(s: RouteCache.State, key: string, config: RouteCache.Cached, keys: set<string>, x: string)
    requires Roomy(s, keys) && key in keys
    ensures var t := RouteCache.Apply(s, RouteCache.Set(key, config));
      Roomy(t, keys) && t.Lookup(x) == if x == key then Some(config) else s.Lookup(x)
  {
    var full := [Lru.Entry(key, config)] + Lru.Without(s.lru, key);
    Lru.AddKeepsShape(s.lru, |s.lru| + 1, key, config);
    assert Lru.Add(s.lru, |s.lru| + 1, key, config) == full;
    Lru.DistinctKeysFit(full, |full|, keys);
    Lru.FindAfterAdd(s.lru, s.maxSize, key, config, x);
  }

  lemma DeleteWithRoom(s: RouteCache.State, key: string, keys: set<string>, x: string)
    requires Roomy(s, keys)
    ensures var t := RouteCache.Apply(s, RouteCache.Delete(key));
      Roomy(t, keys) && t.Lookup(x) == if x == key then None else s.Lookup(x)
  {
    Lru.WithoutDistinct(s.lru, key);
    Lru.FindAfterRemove(s.lru, key, x);
  }

  // ----- full reload

  lemma {:induction false} LoadLookup(s: RouteCache.State, rows: seq<Row>, table: Table, keys: set<string>, x: string)
    requires Roomy(s, keys) && FromTable(rows, table) && table.Keys <= keys
    ensures Roomy(LoadRows(s, rows), keys)
    ensures x in Seen(rows) ==> x in table && table[x].data.Parsed? && table[x] in rows
    ensures LoadRows(s, rows).Lookup(x) == if x in Seen(rows) then Some(table[x].data.config) else s.Lookup(x)
  {
    hide Roomy, RouteCache.Apply;
    if rows != [] {
      var n := |rows| - 1;
      LoadLookup(s, rows[..n], table, keys, x);
      if rows[n].data.Parsed? {
        SetWithRoom(LoadRows(s, rows[..n]), rows[n].key, rows[n].data.config, keys, x);
      }
    }
  }

  lemma {:induction false} SeenAll(rows: seq<Row>, i: nat)
    requires i < |rows| && rows[i].data.Parsed?
    ensures rows[i].key in Seen(rows)
  {
    if i < |rows| - 1 {
      SeenAll(rows[..|rows| - 1], i);
    }
  }

  lemma {:induction false} DropLookup(s: RouteCache.State, listed: seq<string>, keep: set<string>,
                                      keys: set<string>, x: string)
    requires Roomy(s, keys)
    ensures Roomy(DropOthers(s, listed, keep), keys)
    ensures DropOthers(s, listed, keep).Lookup(x) == if x in listed && x !in keep then None else s.Lookup(x)
  {
    hide Roomy, RouteCache.Apply;
    if listed != [] {
      var n := |listed| - 1;
      DropLookup(s, listed[..n], keep, keys, x);
      assert listed == listed[..n] + [listed[n]];
      if listed[n] !in keep {
        DeleteWithRoom(DropOthers(s, listed[..n], keep), listed[n], keys, x);
      }
    }
  }

  lemma StoredIsListed(s: RouteCache.State, x: string)
    ensures s.Lookup(x).Some? ==> x in RouteCache.KeysOldestFirst(s.lru)
  {
    if s.Lookup(x).Some? {
      var i :| 0 <= i < |s.lru| && s.lru[i].key == x;
      assert RouteCache.KeysOldestFirst(s.lru)[|s.lru| - 1 - i] == x;
    }
  }

  /** After a reload, complete or cut short, the cache holds exactly what the rows it saw show: a live key
      whose row did not arrive is gone. */
  lemma ReloadKeepsOnlySeen(s: RouteCache.State, rows: seq<Row>, table: Table, keys: set<string>, x: string)
    requires Roomy(s, keys) && FromTable(rows, table) && table.Keys <= keys
    ensures Roomy(Reloaded(s, rows), keys)
    ensures x in Seen(rows) ==> x in table && table[x].data.Parsed? && table[x] in rows
    ensures Reloaded(s, rows).Lookup(x) == if x in Seen(rows) then Some(table[x].data.config) else None
  {
    var t := LoadRows(s, rows);
    var listed := RouteCache.KeysOldestFirst(t.lru);
    LoadLookup(s, rows, table, keys, x);
    DropLookup(t, listed, Seen(rows), keys, x);
    StoredIsListed(t, x);
  }

  /** A full refresh leaves exactly what the table shows. */
  lemma FullRefreshShowsTable(s: RouteCache.State, rows: seq<Row>, table: Table,
                              softDelete: bool, keys: set<string>, x: string)
    requires Roomy(s, keys) && table.Keys <= keys && IsFullAnswer(rows, table, softDelete)
    ensures Roomy(Reloaded(s, rows), keys) && Reloaded(s, rows).Lookup(x) == Shown(table, softDelete, x)
  {
    hide Roomy, Reloaded;
    ReloadKeepsOnlySeen(s, rows, table, keys, x);
    if Shown(table, softDelete, x).Some? {
      var i :| 0 <= i < |rows| && rows[i] == table[x];
      SeenAll(rows, i);
    }
  }

  /** A full refresh that may have broken off leaves what the table shows if and only if every readable row
      that is not soft-deleted had arrived. */
  lemma PartialReloadShowsTableIff(s: RouteCache.State, rows: seq<Row>, table: Table,
                                   softDelete: bool, keys: set<string>)
    requires Roomy(s, keys) && table.Keys <= keys && FromTable(rows, table)
    requires forall i :: 0 <= i < |rows| ==> !(softDelete && rows[i].deleted)
    ensures (forall x :: Reloaded(s, rows).Lookup(x) == Shown(table, softDelete, x))
      <==> (forall x :: Shown(table, softDelete, x).Some? ==> table[x] in rows)
  {
    hide Roomy, Reloaded;
    forall x
      ensures Reloaded(s, rows).Lookup(x) == Shown(table, softDelete, x)
        <==> (Shown(table, softDelete, x).Some? ==> table[x] in rows)
    {
      ReloadKeepsOnlySeen(s, rows, table, keys, x);
      if Shown(table, softDelete, x).Some? && table[x] in rows {
        var i :| 0 <= i < |rows| && rows[i] == table[x];
        SeenAll(rows, i);
      }
    }
  }

  // ----- incremental refresh

  /** The keys whose rows an incremental refresh applies. */
  ghost predicate Covered(rows: seq<Row>, softDelete: bool, x: string) {
    exists i :: 0 <= i < |rows| && rows[i].key == x && Applies(rows[i], softDelete)
  }

  lemma NothingCovered(softDelete: bool, x: string)
    ensures !Covered([], softDelete, x)
  {
  }

  lemma CoveredByLast(rows: seq<Row>, softDelete: bool, x: string)
    requires rows != []
    ensures Covered(rows, softDelete, x) <==>
      || Covered(rows[..|rows| - 1], softDelete, x)
      || (rows[|rows| - 1].key == x && Applies(rows[|rows| - 1], softDelete))
  {
    var n := |rows| - 1;
    assert forall i :: 0 <= i < n ==> rows[..n][i] == rows[i];
    if i :| 0 <= i < |rows| && rows[i].key == x && Applies(rows[i], softDelete) {
      assert i < n ==> rows[..n][i].key == x;
    }
  }

  lemma {:induction false} RefreshLookup(s: RouteCache.State, rows: seq<Row>, table: Table,
                                         softDelete: bool, keys: set<string>, x: string)
    requires Roomy(s, keys) && FromTable(rows, table) && table.Keys <= keys
    ensures Roomy(Refreshed(s, rows, softDelete), keys)
    ensures Refreshed(s, rows, softDelete).Lookup(x) ==
      if Covered(rows, softDelete, x) then Shown(table, softDelete, x) else s.Lookup(x)
  {
    hide Roomy, RouteCache.Apply, Covered;
    if rows == [] {
      NothingCovered(softDelete, x);
    } else {
      var n := |rows| - 1;
      var t := Refreshed(s, rows[..n], softDelete);
      RefreshLookup(s, rows[..n], table, softDelete, keys, x);
      CoveredByLast(rows, softDelete, x);
      if Applies(rows[n], softDelete) {
        if softDelete && rows[n].deleted {
          DeleteWithRoom(t, rows[n].key, keys, x);
        } else {
          SetWithRoom(t, rows[n].key, rows[n].data.config, keys, x);
        }
      }
    }
  }

  /** Where an incremental refresh brings a key up to date: its row is above the cursor and parses, or can at least
      be read and counts as deleted. */
  predicate UpToDate(table: Table, softDelete: bool, cursor: Stamp, x: string) {
    && x in table && Later(Stamp(table[x].updatedAt, x), cursor)
    && (table[x].data.Parsed? || (softDelete && table[x].deleted && !table[x].data.Unscannable?))
  }

  lemma ChangesCover(rows: seq<Row>, table: Table, softDelete: bool, cursor: Stamp, x: string)
    requires IsChanges(rows, table, cursor)
    ensures Covered(rows, softDelete, x) <==> UpToDate(table, softDelete, cursor, x)
  {
    if UpToDate(table, softDelete, cursor, x) {
      var i :| 0 <= i < |rows| && rows[i] == table[x];
    }
  }

  /** An incremental refresh leaves what a full one would if and only if every key it does not bring up to
      date was already right: no hard delete, no write stamped at or below the cursor and no unreadable
      change may have come between. */
  lemma IncrementalMatchesFullIff(s: RouteCache.State, changes: seq<Row>, all: seq<Row>, table: Table,
                                  softDelete: bool, cursor: Stamp, keys: set<string>)
    requires Roomy(s, keys) && table.Keys <= keys
    requires IsChanges(changes, table, cursor) && IsFullAnswer(all, table, softDelete)
    ensures (forall x :: Refreshed(s, changes, softDelete).Lookup(x) == Reloaded(s, all).Lookup(x))
      <==> (forall x :: UpToDate(table, softDelete, cursor, x) || s.Lookup(x) == Shown(table, softDelete, x))
  {
    hide Roomy, Refreshed, Reloaded, Covered, UpToDate, Shown;
    forall x
      ensures Refreshed(s, changes, softDelete).Lookup(x) ==
        if UpToDate(table, softDelete, cursor, x) then Shown(table, softDelete, x) else s.Lookup(x)
      ensures Reloaded(s, all).Lookup(x) == Shown(table, softDelete, x)
    {
      RefreshLookup(s, changes, table, softDelete, keys, x);
      ChangesCover(changes, table, softDelete, cursor, x);
      FullRefreshShowsTable(s, all, table, softDelete, keys, x);
    }
  }

  // ----- negative entries

  /** What a reader gets when nothing stands between: the configuration, or nil. */
  function Readable(shown: Option<RouteCache.Cached>): RouteCache.Cached {
    if shown.Some? then shown.value else None
  }

  lemma {:induction false} LoadNegative(s: RouteCache.State, rows: seq<Row>, x: string)
    ensures x in LoadRows(s, rows).negative ==> x in s.negative && x !in Seen(rows)
  {
    if rows != [] {
      LoadNegative(s, rows[..|rows| - 1], x);
    }
  }

  lemma {:induction false} DropNegative(s: RouteCache.State, listed: seq<string>, keep: set<string>, x: string)
    ensures x in DropOthers(s, listed, keep).negative ==> x in s.negative
  {
    if listed != [] {
      DropNegative(s, listed[..|listed| - 1], keep, x);
    }
  }

  lemma {:induction false} RefreshNegative(s: RouteCache.State, rows: seq<Row>, softDelete: bool, x: string)
    ensures x in Refreshed(s, rows, softDelete).negative ==> x in s.negative && !Covered(rows, softDelete, x)
  {
    hide Covered;
    if rows == [] {
      NothingCovered(softDelete, x);
    } else {
      RefreshNegative(s, rows[..|rows| - 1], softDelete, x);
      CoveredByLast(rows, softDelete, x);
    }
  }

  lemma ReadNegative(s: RouteCache.State, healthy: bool, key: string, now: int, answer: Answer, x: string)
    ensures x in Read(s, healthy, key, now, answer).cache.negative ==> x in s.negative || (x == key && answer.NoRow?)
  {
  }

  /** After a full reload from readable rows no negative entry hides a key that the table shows. */
  lemma ReloadNegative(s: RouteCache.State, rows: seq<Row>, table: Table, softDelete: bool, x: string)
    requires IsFullAnswer(rows, table, softDelete) && x in Reloaded(s, rows).negative
    ensures Shown(table, softDelete, x).None?
  {
    var t := LoadRows(s, rows);
    DropNegative(t, RouteCache.KeysOldestFirst(t.lru), Seen(rows), x);
    LoadNegative(s, rows, x);
    if Shown(table, softDelete, x).Some? {
      var i :| 0 <= i < |rows| && rows[i] == table[x];
      SeenAll(rows, i);
    }
  }

  // ----- the cursor

  lemma {:induction false} CursorIsGreatest(cursor: Stamp, rows: seq<Row>, softDelete: bool)
    ensures var c := Advanced(cursor, rows, softDelete);
      && !Later(cursor, c)
      && (forall i :: 0 <= i < |rows| && Applies(rows[i], softDelete) ==> !Later(rows[i].Stamped(), c))
      && (c == cursor || exists i :: 0 <= i < |rows| && Applies(rows[i], softDelete) && rows[i].Stamped() == c)
  {
    var c := Advanced(cursor, rows, softDelete);
    if rows == [] {
      LaterTransitive(cursor, cursor, cursor);
    } else {
      var n := |rows| - 1;
      var b := Advanced(cursor, rows[..n], softDelete);
      CursorIsGreatest(cursor, rows[..n], softDelete);
      NotLaterTransitive(cursor, b, c);
      LaterTransitive(c, c, c);
      forall i | 0 <= i < |rows| && Applies(rows[i], softDelete) ensures !Later(rows[i].Stamped(), c) {
        if i < n {
          assert rows[..n][i] == rows[i];
          NotLaterTransitive(rows[i].Stamped(), b, c);
        }
      }
      if c == b && b != cursor {
        var i :| 0 <= i < n && Applies(rows[..n][i], softDelete) && rows[..n][i].Stamped() == b;
        assert rows[i] == rows[..n][i];
      }
    }
  }

  lemma NotLaterTransitive(a: Stamp, b: Stamp, c: Stamp)
    requires !Later(a, b) && (b == c || Later(c, b))
    ensures !Later(a, c)
  {
    LaterTransitive(a, c, b);
  }

  // ----- runs

  /** The table, the cache kept for it, and the cursor. */
  datatype World = World(table: Table, cache: RouteCache.State, cursor: Stamp)

  datatype Event =
    | Write(row: Row)
    | Lookup(key: string, now: int, healthy: bool, failing: bool)
    | RefreshAbove(rows: seq<Row>, broken: bool)
    | RefreshAll(rows: seq<Row>)

  /** What the query for one key answers, or that it fails. */
  function AnswerFor(table: Table, softDelete: bool, key: string, failing: bool): Answer {
    if failing then QueryFailed
    else if key in table && !(softDelete && table[key].deleted) then Found(table[key].data) else NoRow
  }

  function Step(w: World, softDelete: bool, e: Event): World {
    match e
    case Write(row) => w.(table := w.table[row.key := row])
    case Lookup(key, now, healthy, failing) =>
      w.(cache := Read(w.cache, healthy, key, now, AnswerFor(w.table, softDelete, key, failing)).cache)
    case RefreshAbove(rows, broken) =>
      w.(cache := Refreshed(w.cache, rows, softDelete),
         cursor := if broken then w.cursor else Advanced(w.cursor, rows, softDelete))
    case RefreshAll(rows) => w.(cache := Reloaded(w.cache, rows))
  }

  /** Writes are stamped above the cursor, parse, and leave the cache room; deletes are soft (there is no
      other event for them); a refresh is answered from the table, and one above the cursor that breaks
      off has delivered some of the rows it should have. */
  ghost predicate Admissible(w: World, softDelete: bool, e: Event) {
    match e
    case Write(row) => row.data.Parsed? && Later(row.Stamped(), w.cursor)
      && |w.table[row.key := row].Keys| <= w.cache.maxSize
    case Lookup(_, _, _, _) => true
    case RefreshAbove(rows, broken) =>
      if broken then FromTable(rows, w.table) else IsChanges(rows, w.table, w.cursor)
    case RefreshAll(rows) => IsFullAnswer(rows, w.table, softDelete)
  }

  /** The row of the key, if there is one, is not above the cursor. */
  predicate Settled(w: World, k: string) {
    k !in w.table || !Later(w.table[k].Stamped(), w.cursor)
  }

  /** The key is cached as the table shows it, and no negative entry hides it. */
  predicate InStep(cache: RouteCache.State, table: Table, softDelete: bool, k: string) {
    && cache.Lookup(k) == Shown(table, softDelete, k)
    && (k in cache.negative ==> Shown(table, softDelete, k).None?)
  }

  /** The cursor has not run ahead of the rows. */
  ghost predicate Reached(table: Table, cursor: Stamp) {
    table != map[] ==> exists k :: k in table && !Later(cursor, table[k].Stamped())
  }

  /** Every settled key is in step, nothing but the table's keys is cached, and some row is at or above the
      cursor. */
  ghost predicate Synced(w: World, softDelete: bool) {
    && Roomy(w.cache, w.table.Keys)
    && Reached(w.table, w.cursor)
    && (forall k :: k in w.table ==> w.table[k].data.Parsed?)
    && (forall k :: Settled(w, k) ==> InStep(w.cache, w.table, softDelete, k))
  }

  /** A reader gets what the table shows, at any time. */
  lemma InStepReads(cache: RouteCache.State, table: Table, softDelete: bool, k: string, now: int)
    requires InStep(cache, table, softDelete, k)
    ensures RouteCache.GetResult(cache, k, now) == Readable(Shown(table, softDelete, k))
  {
  }

  lemma TouchWithRoom(s: RouteCache.State, key: string, now: int, keys: set<string>, x: string)
    requires Roomy(s, keys)
    ensures var t := RouteCache.Apply(s, RouteCache.Get(key, now)); Roomy(t, keys) && t.Lookup(x) == s.Lookup(x)
  {
    RouteCache.ApplyKeepsValid(s, RouteCache.Get(key, now));
    Lru.FindAfterTouch(s.lru, key, x);
  }

  lemma NegativeEntriesOnly(s: RouteCache.State, key: string, now: int)
    ensures RouteCache.Apply(s, RouteCache.IsNegativeCached(key, now)).(negative := s.negative) == s
    ensures RouteCache.Apply(s, RouteCache.SetNegative(key, now)).(negative := s.negative) == s
  {
  }

  lemma RoomIgnoresNegative(s: RouteCache.State, t: RouteCache.State, keys: set<string>, x: string)
    requires Roomy(s, keys) && t.(negative := s.negative) == s
    ensures Roomy(t, keys) && t.Lookup(x) == s.Lookup(x)
  {
  }

  /** A lookup leaves every stored value as it is, except that it may store the row of its own key. */
  lemma ReadLookup(s: RouteCache.State, healthy: bool, key: string, now: int,
                   answer: Answer, keys: set<string>, x: string)
    requires Roomy(s, keys) && (answer.Found? ==> key in keys)
    ensures Roomy(Read(s, healthy, key, now, answer).cache, keys)
    ensures var found := Read(s, healthy, key, now, answer).cache.Lookup(x);
      found == s.Lookup(x) || (x == key && answer.Found? && answer.data.Parsed? && found == Some(answer.data.config))
  {
    hide Roomy, RouteCache.Apply, RouteCache.GetResult;
    var s1 := RouteCache.Apply(s, RouteCache.Get(key, now));
    var s2 := RouteCache.Apply(s1, RouteCache.IsNegativeCached(key, now));
    var s3 := RouteCache.Apply(s2, RouteCache.Get(key, now));
    TouchWithRoom(s, key, now, keys, x);
    NegativeEntriesOnly(s1, key, now);
    RoomIgnoresNegative(s1, s2, keys, x);
    TouchWithRoom(s2, key, now, keys, x);
    NegativeEntriesOnly(s3, key, now);
    RoomIgnoresNegative(s3, RouteCache.Apply(s3, RouteCache.SetNegative(key, now)), keys, x);
    if answer.Found? && answer.data.Parsed? {
      SetWithRoom(s3, key, answer.data.config, keys, x);
    }
  }

  lemma LookupKeepsSynced(w: World, softDelete: bool, key: string, now: int, healthy: bool, failing: bool)
    requires Synced(w, softDelete)
    ensures Synced(Step(w, softDelete, Lookup(key, now, healthy, failing)), softDelete)
  {
    hide Roomy, Read, Later;
    var answer := AnswerFor(w.table, softDelete, key, failing);
    var t := Read(w.cache, healthy, key, now, answer).cache;
    ReadLookup(w.cache, healthy, key, now, answer, w.table.Keys, key);
    forall k | Settled(w, k) ensures InStep(t, w.table, softDelete, k) {
      assert InStep(w.cache, w.table, softDelete, k);
      ReadLookup(w.cache, healthy, key, now, answer, w.table.Keys, k);
      ReadNegative(w.cache, healthy, key, now, answer, k);
    }
  }

  lemma RoomGrows(s: RouteCache.State, keys: set<string>, more: set<string>)
    requires Roomy(s, keys) && keys <= more && |more| <= s.maxSize
    ensures Roomy(s, more)
  {
  }

  lemma StampsComparable(a: Stamp, b: Stamp)
    ensures !Later(a, b) || !Later(b, a)
    ensures !Later(a, b) && !Later(b, a) <==> a == b
  {
    LaterTransitive(a, b, a);
    LaterTransitive(b, a, b);
  }

  lemma WriteKeepsSynced(w: World, softDelete: bool, row: Row)
    requires Synced(w, softDelete) && Admissible(w, softDelete, Write(row))
    ensures Synced(Step(w, softDelete, Write(row)), softDelete)
  {
    hide Roomy, Later;
    var table := w.table[row.key := row];
    RoomGrows(w.cache, w.table.Keys, table.Keys);
    assert table[row.key] == row;
    StampsComparable(w.cursor, row.Stamped());
    forall k | Settled(w.(table := table), k) ensures InStep(w.cache, table, softDelete, k) {
      assert k != row.key && Settled(w, k);
    }
  }

  /** After an unbroken refresh above the cursor every key is in step. */
  lemma RefreshCatchesUp(w: World, softDelete: bool, rows: seq<Row>, x: string)
    requires Synced(w, softDelete) && IsChanges(rows, w.table, w.cursor)
    ensures Roomy(Refreshed(w.cache, rows, softDelete), w.table.Keys)
    ensures InStep(Refreshed(w.cache, rows, softDelete), w.table, softDelete, x)
  {
    hide Roomy, Refreshed, Covered;
    RefreshLookup(w.cache, rows, w.table, softDelete, w.table.Keys, x);
    RefreshNegative(w.cache, rows, softDelete, x);
    ChangesCover(rows, w.table, softDelete, w.cursor, x);
    if Settled(w, x) {
      assert InStep(w.cache, w.table, softDelete, x);
    }
  }

  /** One that breaks off leaves every key in step that was. */
  lemma BrokenRefreshKeeps(w: World, softDelete: bool, rows: seq<Row>, x: string)
    requires Synced(w, softDelete) && FromTable(rows, w.table)
    ensures Roomy(Refreshed(w.cache, rows, softDelete), w.table.Keys)
    ensures Settled(w, x) ==> InStep(Refreshed(w.cache, rows, softDelete), w.table, softDelete, x)
  {
    hide Roomy, Refreshed, Covered, Later;
    RefreshLookup(w.cache, rows, w.table, softDelete, w.table.Keys, x);
    RefreshNegative(w.cache, rows, softDelete, x);
    if Settled(w, x) {
      assert InStep(w.cache, w.table, softDelete, x);
    }
  }

  /** After a complete refresh the cursor is the stamp of a row. */
  lemma RefreshReaches(w: World, softDelete: bool, rows: seq<Row>)
    requires Synced(w, softDelete) && IsChanges(rows, w.table, w.cursor) && w.table != map[]
    ensures exists k :: k in w.table && w.table[k].Stamped() == Advanced(w.cursor, rows, softDelete)
    ensures Reached(w.table, Advanced(w.cursor, rows, softDelete))
  {
    hide Roomy, InStep, Later, Advanced;
    var c := Advanced(w.cursor, rows, softDelete);
    CursorIsGreatest(w.cursor, rows, softDelete);
    if c == w.cursor {
      var k :| k in w.table && !Later(w.cursor, w.table[k].Stamped());
      StampsComparable(w.cursor, w.table[k].Stamped());
      assert !Later(w.table[k].Stamped(), w.cursor);
    } else {
      var i :| 0 <= i < |rows| && rows[i].Stamped() == c;
      assert w.table[rows[i].key].Stamped() == c;
    }
    StampsComparable(c, c);
  }

  lemma RefreshKeepsSynced(w: World, softDelete: bool, rows: seq<Row>, broken: bool)
    requires Synced(w, softDelete) && Admissible(w, softDelete, RefreshAbove(rows, broken))
    ensures Synced(Step(w, softDelete, RefreshAbove(rows, broken)), softDelete)
  {
    hide Roomy, Refreshed, Advanced, InStep, Later, FromTable, IsChanges;
    if broken {
      BrokenRefreshKeeps(w, softDelete, rows, "");
    } else {
      RefreshCatchesUp(w, softDelete, rows, "");
      if w.table != map[] {
        RefreshReaches(w, softDelete, rows);
      }
    }
    forall x
      ensures !broken || Settled(w, x) ==> InStep(Refreshed(w.cache, rows, softDelete), w.table, softDelete, x)
    {
      if broken {
        BrokenRefreshKeeps(w, softDelete, rows, x);
      } else {
        RefreshCatchesUp(w, softDelete, rows, x);
      }
    }
  }

  /** After a full reload every key is in step. */
  lemma ReloadCatchesUp(w: World, softDelete: bool, rows: seq<Row>, x: string)
    requires Synced(w, softDelete) && IsFullAnswer(rows, w.table, softDelete)
    ensures Roomy(Reloaded(w.cache, rows), w.table.Keys)
    ensures InStep(Reloaded(w.cache, rows), w.table, softDelete, x)
  {
    hide Roomy, Reloaded, IsFullAnswer;
    FullRefreshShowsTable(w.cache, rows, w.table, softDelete, w.table.Keys, x);
    if x in Reloaded(w.cache, rows).negative {
      ReloadNegative(w.cache, rows, w.table, softDelete, x);
    }
  }

  lemma ReloadKeepsSynced(w: World, softDelete: bool, rows: seq<Row>)
    requires Synced(w, softDelete) && IsFullAnswer(rows, w.table, softDelete)
    ensures Synced(Step(w, softDelete, RefreshAll(rows)), softDelete)
  {
    hide Roomy, Reloaded, InStep, IsFullAnswer;
    ReloadCatchesUp(w, softDelete, rows, "");
    forall x
      ensures InStep(Reloaded(w.cache, rows), w.table, softDelete, x)
    {
      ReloadCatchesUp(w, softDelete, rows, x);
    }
  }

  lemma StepKeepsSynced(w: World, softDelete: bool, e: Event)
    requires Synced(w, softDelete) && Admissible(w, softDelete, e)
    ensures Synced(Step(w, softDelete, e), softDelete)
  {
    hide Roomy, Refreshed, Reloaded, Read, Synced;
    match e
    case Write(row) => WriteKeepsSynced(w, softDelete, row);
    case Lookup(key, now, healthy, failing) => LookupKeepsSynced(w, softDelete, key, now, healthy, failing);
    case RefreshAbove(rows, broken) => RefreshKeepsSynced(w, softDelete, rows, broken);
    case RefreshAll(rows) => ReloadKeepsSynced(w, softDelete, rows);
  }

  function Play(w: World, softDelete: bool, events: seq<Event>): World {
    if events == [] then w
    else Step(Play(w, softDelete, events[..|events| - 1]), softDelete, events[|events| - 1])
  }

  ghost predicate AdmissibleRun(w: World, softDelete: bool, events: seq<Event>) {
    forall k :: 0 <= k < |events| ==> Admissible(Play(w, softDelete, events[..k]), softDelete, events[k])
  }

  lemma {:induction false} RunStaysSynced(w: World, softDelete: bool, events: seq<Event>)
    requires Synced(w, softDelete) && AdmissibleRun(w, softDelete, events)
    ensures Synced(Play(w, softDelete, events), softDelete)
  {
    hide Synced, Admissible, Step;
    if events != [] {
      var n := |events| - 1;
      forall k | 0 <= k < n ensures Admissible(Play(w, softDelete, events[..n][..k]), softDelete, events[..n][k]) {
        assert events[..n][..k] == events[..k];
      }
      RunStaysSynced(w, softDelete, events[..n]);
      StepKeepsSynced(Play(w, softDelete, events[..n]), softDelete, events[n]);
    }
  }

  /** In every run, each unbroken refresh above the cursor leaves exactly what a full reload would leave,
      to the eyes of every later reader too, and moves the cursor, never back, to the greatest stamp in the
      table. */
  lemma IncrementalRefinesFull(w: World, softDelete: bool, events: seq<Event>, changes: seq<Row>,
                               all: seq<Row>, x: string, now: int)
    requires Synced(w, softDelete) && AdmissibleRun(w, softDelete, events)
    requires var v := Play(w, softDelete, events);
      IsChanges(changes, v.table, v.cursor) && IsFullAnswer(all, v.table, softDelete)
    ensures var v := Play(w, softDelete, events);
      var u := Step(v, softDelete, RefreshAbove(changes, false));
      && u.cache.Lookup(x) == Reloaded(v.cache, all).Lookup(x) == Shown(v.table, softDelete, x)
      && RouteCache.GetResult(u.cache, x, now) == RouteCache.GetResult(Reloaded(v.cache, all), x, now)
           == Readable(Shown(v.table, softDelete, x))
      && !Later(v.cursor, u.cursor)
      && (x in v.table ==> !Later(v.table[x].Stamped(), u.cursor))
      && (v.table != map[] ==> exists k :: k in v.table && Stamp(v.table[k].updatedAt, k) == u.cursor)
  {
    hide Roomy, Refreshed, Reloaded, Advanced, Play, RouteCache.GetResult;
    var v := Play(w, softDelete, events);
    RunStaysSynced(w, softDelete, events);
    RefreshCatchesUp(v, softDelete, changes, x);
    ReloadCatchesUp(v, softDelete, all, x);
    InStepReads(Refreshed(v.cache, changes, softDelete), v.table, softDelete, x, now);
    InStepReads(Reloaded(v.cache, all), v.table, softDelete, x, now);
    CursorIsGreatest(v.cursor, changes, softDelete);
    if v.table != map[] {
      RefreshReaches(v, softDelete, changes);
      var k :| k in v.table && v.table[k].Stamped() == Advanced(v.cursor, changes, softDelete);
      assert v.table[k].key == k;
    }
    if x in v.table {
      if Later(v.table[x].Stamped(), v.cursor) {
        var i :| 0 <= i < |changes| && changes[i] == v.table[x];
      } else {
        CursorNeverPassedBy(v.table[x].Stamped(), v.cursor, changes, softDelete);
      }
    }
  }

  lemma {:induction false} CursorNeverPassedBy(a: Stamp, cursor: Stamp, rows: seq<Row>, softDelete: bool)
    requires !Later(a, cursor)
    ensures !Later(a, Advanced(cursor, rows, softDelete))
  {
    if rows != [] {
      var b := Advanced(cursor, rows[..|rows| - 1], softDelete);
      CursorNeverPassedBy(a, cursor, rows[..|rows| - 1], softDelete);
      if Advanced(cursor, rows, softDelete) != b {
        NotLaterTransitive(a, b, Advanced(cursor, rows, softDelete));
      }
    }
  }

  /** Loading the table and then taking its newest stamp as the cursor, with no write in between, starts
      a run in step. */
  lemma ProvisionStartsInStep(table: Table, softDelete: bool, maxSize: int, rows: seq<Row>, cursor: Stamp)
    requires IsFullAnswer(rows, table, softDelete) && |table.Keys| <= RouteCache.Fresh(maxSize).maxSize
    requires forall k :: k in table ==> table[k].data.Parsed?
    requires forall k :: k in table ==> !Later(table[k].Stamped(), cursor)
    requires table != map[] ==> exists k :: k in table && table[k].Stamped() == cursor
    ensures Synced(World(table, LoadRows(RouteCache.Fresh(maxSize), rows), cursor), softDelete)
  {
    hide Roomy, LoadRows;
    var s := RouteCache.Fresh(maxSize);
    FreshHasRoom(maxSize, table.Keys);
    LoadLookup(s, rows, table, table.Keys, "");
    forall x ensures InStep(LoadRows(s, rows), table, softDelete, x) {
      LoadNegative(s, rows, x);
      LoadLookup(s, rows, table, table.Keys, x);
      if Shown(table, softDelete, x).Some? {
        var i :| 0 <= i < |rows| && rows[i] == table[x];
        SeenAll(rows, i);
      }
    }
  }

  lemma FreshHasRoom(maxSize: int, keys: set<string>)
    requires |keys| <= RouteCache.Fresh(maxSize).maxSize
    ensures Roomy(RouteCache.Fresh(maxSize), keys)
  {
  }

  // ----- what lookups answer in a run

  /** A healthy source whose query does not fail answers a key that is not negatively cached, and is uncached or
      settled, as the table shows it. */
  lemma LookupShowsTable(w: World, softDelete: bool, key: string, now: int)
    requires Synced(w, softDelete) && !w.cache.Hidden(key, now)
    requires w.cache.Lookup(key).None? || Settled(w, key)
    ensures var read := Read(w.cache, true, key, now, AnswerFor(w.table, softDelete, key, false));
      read.config == Readable(Shown(w.table, softDelete, key)) && !read.failed
  {
    hide Read, Later, Roomy;
    var answer := AnswerFor(w.table, softDelete, key, false);
    assert w.cache.maxSize > 0 by {
      RoomForSome(w.cache, w.table.Keys);
    }
    if w.cache.Lookup(key).Some? {
      assert InStep(w.cache, w.table, softDelete, key);
    }
    if w.cache.Lookup(key).Some? && w.cache.Lookup(key).value.Some? {
      StoredIsAnswered(w.cache, true, key, now, answer);
    } else {
      TableIsAsked(w.cache, key, now, answer);
    }
  }

  lemma RoomForSome(s: RouteCache.State, keys: set<string>)
    requires Roomy(s, keys)
    ensures s.maxSize > 0
  {
  }

  // ----- periodic full reloads

  /** A complete poll that reloads in full, in full mode or because the interval has passed since the last time or
      there was none, leaves exactly what the table shows, hard deletes included, whatever the cache held. */
  lemma DuePollShowsTable(mode: RefreshMode, softDelete: bool, interval: int, st: PollState, now: int, all: Rows,
                          changes: Rows, table: Table, keys: set<string>, x: string)
    requires mode == Full || (mode == Incremental && interval > 0)
    requires mode == Full || st.lastFull == 0 || now - st.lastFull >= interval
    requires all.Complete() && IsFullAnswer(all.rows, table, softDelete)
    requires Roomy(st.cache, keys) && table.Keys <= keys
    ensures var (after, ok) := Poll(mode, softDelete, interval, st, now, all, changes);
      && ok && after.lastFull == now && after.cursor == st.cursor && Roomy(after.cache, keys)
      && InStep(after.cache, table, softDelete, x)
  {
    hide Roomy, Reloaded, IsFullAnswer;
    FullRefreshShowsTable(st.cache, all.rows, table, softDelete, keys, x);
    if x in Reloaded(st.cache, all.rows).negative {
      ReloadNegative(st.cache, all.rows, table, softDelete, x);
    }
  }

  /** A poll that is not due for a full reload does to the cache and the cursor what the event of a refresh above the
      cursor does, and one that is due what a full reload does; a refused query changes nothing. */
  lemma PollsAreEvents(softDelete: bool, interval: int, st: PollState, now: int, all: Rows, changes: Rows, table: Table)
    ensures var (after, ok) := Poll(Incremental, softDelete, interval, st, now, all, changes);
      var w := World(table, st.cache, st.cursor);
      var due := interval > 0 && (st.lastFull == 0 || now - st.lastFull >= interval);
      && (!due && changes.Delivered? ==>
            && World(table, after.cache, after.cursor)
                 == Step(w, softDelete, RefreshAbove(changes.rows, changes.broken))
            && after.lastFull == st.lastFull && ok == !changes.broken)
      && (due && all.Delivered? ==>
            && World(table, after.cache, after.cursor) == Step(w, softDelete, RefreshAll(all.rows))
            && after.lastFull == (if all.broken then st.lastFull else now) && ok == !all.broken)
      && ((!due && changes.Refused?) || (due && all.Refused?) ==> after == st && !ok)
  {
    hide Refreshed, Reloaded, Advanced;
  }

  /** A poll at some time, the table then, and what its queries deliver. */
  datatype Tick = Tick(now: int, table: Table, all: Rows, changes: Rows)

  ghost predicate Answered(tick: Tick, softDelete: bool, keys: set<string>) {
    && tick.all.Complete() && IsFullAnswer(tick.all.rows, tick.table, softDelete)
    && tick.changes.Complete() && FromTable(tick.changes.rows, tick.table)
    && tick.table.Keys <= keys
  }

  function Ticked(softDelete: bool, interval: int, st: PollState, ticks: seq<Tick>): PollState {
    if ticks == [] then st
    else
      var last := ticks[|ticks| - 1];
      Poll(Incremental, softDelete, interval, Ticked(softDelete, interval, st, ticks[..|ticks| - 1]),
           last.now, last.all, last.changes).0
  }

  ghost predicate AllInStep(cache: RouteCache.State, table: Table, softDelete: bool) {
    forall x :: InStep(cache, table, softDelete, x)
  }

  /** The cache after the first n polls is in step with the table of the last of them. */
  ghost predicate InStepAt(softDelete: bool, interval: int, st: PollState, ticks: seq<Tick>, n: nat)
    requires 0 < n <= |ticks|
  {
    AllInStep(Ticked(softDelete, interval, st, ticks[..n]).cache, ticks[n - 1].table, softDelete)
  }

  /** In every run of answered polls of an incremental source with an interval, less than the interval has passed
      since the last full reload, which was before the run or left exactly what the table then showed. */
  lemma {:induction false} NeverLongWithoutReload(softDelete: bool, interval: int, st: PollState, ticks: seq<Tick>,
                                                  keys: set<string>)
    requires interval > 0 && Roomy(st.cache, keys)
    requires forall i :: 0 <= i < |ticks| ==> Answered(ticks[i], softDelete, keys)
    ensures var after := Ticked(softDelete, interval, st, ticks);
      && Roomy(after.cache, keys)
      && (ticks != [] ==> ticks[|ticks| - 1].now - after.lastFull < interval)
      && (after.lastFull == st.lastFull
          || exists n :: 0 < n <= |ticks| && after.lastFull == ticks[n - 1].now
               && InStepAt(softDelete, interval, st, ticks, n))
  {
    hide Roomy, Poll, InStep, Answered;
    if ticks != [] {
      var n := |ticks| - 1;
      var before, tick := ticks[..n], ticks[n];
      var st' := Ticked(softDelete, interval, st, before);
      NeverLongWithoutReload(softDelete, interval, st, before, keys);
      OneMoreTick(softDelete, interval, st', tick, keys);
      assert ticks[..n + 1] == ticks;
      if Ticked(softDelete, interval, st, ticks).lastFull == st'.lastFull && st'.lastFull != st.lastFull {
        var m :| 0 < m <= n && st'.lastFull == before[m - 1].now && InStepAt(softDelete, interval, st, before, m);
        assert before[..m] == ticks[..m] && before[m - 1] == ticks[m - 1];
        assert InStepAt(softDelete, interval, st, ticks, m);
      } else if Ticked(softDelete, interval, st, ticks).lastFull != st'.lastFull {
        assert InStepAt(softDelete, interval, st, ticks, n + 1);
      }
    }
  }

  lemma OneMoreTick(softDelete: bool, interval: int, st: PollState, tick: Tick, keys: set<string>)
    requires interval > 0 && Roomy(st.cache, keys) && Answered(tick, softDelete, keys)
    ensures var after := Poll(Incremental, softDelete, interval, st, tick.now, tick.all, tick.changes).0;
      && Roomy(after.cache, keys) && tick.now - after.lastFull < interval
      && (after.lastFull == st.lastFull
          || (after.lastFull == tick.now && AllInStep(after.cache, tick.table, softDelete)))
  {
    hide Roomy, InStep, Refreshed, Reloaded, IsFullAnswer, FromTable;
    if st.lastFull == 0 || tick.now - st.lastFull >= interval {
      forall x
        ensures InStep(Reloaded(st.cache, tick.all.rows), tick.table, softDelete, x)
      {
        DuePollShowsTable(Incremental, softDelete, interval, st, tick.now, tick.all, tick.changes, tick.table, keys, x);
      }
      FullRefreshShowsTable(st.cache, tick.all.rows, tick.table, softDelete, keys, "");
    } else {
      RefreshLookup(st.cache, tick.changes.rows, tick.table, softDelete, keys, "");
    }
  }
}
