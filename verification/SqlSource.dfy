/** The SQL source: a cache kept in step with a table by full reloads or by incremental refreshes above a
    cursor. The methods are proved against folds over the rows a query answers with; SqlRuns says what the
    folds add up to over runs of writes and refreshes. */
module SqlSource {
  import opened Base
  import opened Routes
  import Lru
  import RouteCache

  // ----- stamps

  /** Go's order on strings. */
  predicate KeyLess(a: string, b: string) {
    b != [] && (a == [] || a[0] < b[0] || (a[0] == b[0] && KeyLess(a[1..], b[1..])))
  }

  datatype Stamp = Stamp(time: int, key: string)

  predicate Later(a: Stamp, b: Stamp) {
    a.time > b.time || (a.time == b.time && KeyLess(b.key, a.key))
  }

  // ----- rows

  /** What scanning a row and parsing its configuration yields; parsing blank data yields nil. */
  datatype RowData = Parsed(config: RouteCache.Cached) | Unparsable | Unscannable

  datatype Row = Row(key: string, data: RowData, updatedAt: int, deleted: bool) {
    function Stamped(): Stamp {
      Stamp(updatedAt, key)
    }
  }

  /** Every readable row of a full query is stored. */
  function LoadRows(s: RouteCache.State, rows: seq<Row>): RouteCache.State {
    if rows == [] then s
    else
      var row := rows[|rows| - 1];
      var t := LoadRows(s, rows[..|rows| - 1]);
      if row.data.Parsed? then RouteCache.Apply(t, RouteCache.Set(row.key, row.data.config)) else t
  }

  function Seen(rows: seq<Row>): set<string> {
    if rows == [] then {}
    else
      var row := rows[|rows| - 1];
      Seen(rows[..|rows| - 1]) + if row.data.Parsed? then {row.key} else {}
  }

  /** Delete, in order, the listed keys that are not among those to keep. */
  function DropOthers(s: RouteCache.State, keys: seq<string>, keep: set<string>): RouteCache.State {
    if keys == [] then s
    else
      var k := keys[|keys| - 1];
      var t := DropOthers(s, keys[..|keys| - 1], keep);
      if k in keep then t else RouteCache.Apply(t, RouteCache.Delete(k))
  }

  function Reloaded(s: RouteCache.State, rows: seq<Row>): RouteCache.State {
    var t := LoadRows(s, rows);
    DropOthers(t, RouteCache.KeysOldestFirst(t.lru), Seen(rows))
  }

  /** A changed row that can be read counts as deleted or must parse; others are passed over. */
  predicate Applies(row: Row, softDelete: bool) {
    row.data.Parsed? || (row.data.Unparsable? && softDelete && row.deleted)
  }

  function ApplyChange(s: RouteCache.State, row: Row, softDelete: bool): RouteCache.State {
    if !Applies(row, softDelete) then s
    else if softDelete && row.deleted then RouteCache.Apply(s, RouteCache.Delete(row.key))
    else RouteCache.Apply(s, RouteCache.Set(row.key, row.data.config))
  }

  function Refreshed(s: RouteCache.State, rows: seq<Row>, softDelete: bool): RouteCache.State {
    if rows == [] then s
    else ApplyChange(Refreshed(s, rows[..|rows| - 1], softDelete), rows[|rows| - 1], softDelete)
  }

  /** The greatest stamp among the cursor and the rows applied. */
  function Advanced(cursor: Stamp, rows: seq<Row>, softDelete: bool): Stamp {
    if rows == [] then cursor
    else
      var row := rows[|rows| - 1];
      var c := Advanced(cursor, rows[..|rows| - 1], softDelete);
      if Applies(row, softDelete) && Later(row.Stamped(), c) then row.Stamped() else c
  }

  /** What a query for rows gives: nothing, or rows, of which a broken iteration delivers only some. */
  datatype Rows = Refused | Delivered(rows: seq<Row>, broken: bool) {
    predicate Complete() {
      Delivered? && !broken
    }
  }

  datatype Newest = NewestFailed | EmptyTable | Newest(stamp: Stamp)

  /** The answer to the query for one key. */
  datatype Answer = NoRow | QueryFailed | Found(data: RowData)

  datatype ReadResult = ReadResult(cache: RouteCache.State, config: RouteCache.Cached, failed: bool)

  /** A lookup: the cache, then its negative entries, then - if the source is healthy - the table. */
  function Read(s: RouteCache.State, healthy: bool, key: string, now: int, answer: Answer): ReadResult {
    var s1 := RouteCache.Apply(s, RouteCache.Get(key, now));
    var s2 := RouteCache.Apply(s1, RouteCache.IsNegativeCached(key, now));
    var s3 := RouteCache.Apply(s2, RouteCache.Get(key, now));
    if RouteCache.GetResult(s, key, now).Some? then ReadResult(s1, RouteCache.GetResult(s, key, now), false)
    else if s1.Hidden(key, now) || !healthy then ReadResult(s2, None, false)
    else if RouteCache.GetResult(s2, key, now).Some? then ReadResult(s3, RouteCache.GetResult(s2, key, now), false)
    else match answer
      case NoRow => ReadResult(RouteCache.Apply(s3, RouteCache.SetNegative(key, now)), None, false)
      case QueryFailed => ReadResult(s3, None, true)
      case Found(Parsed(c)) => ReadResult(RouteCache.Apply(s3, RouteCache.Set(key, c)), c, false)
      case Found(Unparsable) => ReadResult(s3, None, false)
      case Found(Unscannable) => ReadResult(s3, None, true)
  }

  // ----- polls

  datatype RefreshMode = Full | Incremental | Other

  /** What polls change: the cache, the cursor, and the time of the last full reload. */
  datatype PollState = PollState(cache: RouteCache.State, cursor: Stamp, lastFull: int)

  function Poll(mode: RefreshMode, softDelete: bool, interval: int, st: PollState, now: int, all: Rows, changes: Rows):
    (PollState, bool)
  {
    if mode == Full || (mode == Incremental && interval > 0 && (st.lastFull == 0 || now - st.lastFull >= interval)) then
      if all.Refused? then (st, false)
      else
        (PollState(Reloaded(st.cache, all.rows), st.cursor, if all.broken then st.lastFull else now), !all.broken)
    else if mode == Incremental then
      if changes.Refused? then (st, false)
      else
        var cursor := if changes.broken then st.cursor else Advanced(st.cursor, changes.rows, softDelete);
        (PollState(Refreshed(st.cache, changes.rows, softDelete), cursor, st.lastFull), !changes.broken)
    else (st, false)
  }

  // ----- the source

  class SqlSource {
    const softDelete: bool
    const refreshMode: RefreshMode
    const fullRefreshInterval: int
    const cache: RouteCache.RouteCache

    var healthy: bool
    var incCursor: Stamp
    var lastFullRefresh: int

    constructor (softDelete: bool, refreshMode: RefreshMode, fullRefreshInterval: int, maxCacheSize: int)
      ensures fresh(cache) && cache.View() == RouteCache.Fresh(maxCacheSize)
      ensures healthy && incCursor == Stamp(0, "") && lastFullRefresh == 0
      ensures this.softDelete == softDelete && this.refreshMode == refreshMode
      ensures this.fullRefreshInterval == fullRefreshInterval
    {
      this.softDelete, this.refreshMode := softDelete, refreshMode;
      this.fullRefreshInterval := fullRefreshInterval;
      cache := new RouteCache.RouteCache(maxCacheSize);
      healthy := true;
      incCursor := Stamp(0, "");
      lastFullRefresh := 0;
    }

    method InitialLoad(answer: Rows) returns (ok: bool)
      modifies cache
      ensures ok == answer.Complete()
      ensures cache.View() == if answer.Refused? then old(cache.View()) else LoadRows(old(cache.View()), answer.rows)
    {
      if answer.Refused? {
        return false;
      }
      var rows := answer.rows;
      for i := 0 to |rows|
        invariant cache.View() == LoadRows(old(cache.View()), rows[..i])
      {
        assert rows[..i + 1][..i] == rows[..i];
        if rows[i].data.Parsed? {
          cache.Set(rows[i].key, rows[i].data.config);
        }
      }
      assert rows[..|rows|] == rows;
      ok := !answer.broken;
    }

    method InitIncrementalCursor(answer: Newest, now: int) returns (ok: bool)
      modifies this`incCursor, this`lastFullRefresh
      ensures ok == !answer.NewestFailed?
      ensures incCursor == if answer.Newest? then answer.stamp else old(incCursor)
      ensures lastFullRefresh == if answer.Newest? && old(lastFullRefresh) == 0 then now else old(lastFullRefresh)
    {
      if !answer.Newest? {
        return answer.EmptyTable?;
      }
      incCursor := answer.stamp;
      if lastFullRefresh == 0 {
        lastFullRefresh := now;
      }
      ok := true;
    }

    /** Keys that were not seen are deleted before it is known whether the rows were complete. */
    method RefreshFull(answer: Rows) returns (ok: bool)
      modifies cache
      ensures ok == answer.Complete()
      ensures cache.View() == if answer.Refused? then old(cache.View()) else Reloaded(old(cache.View()), answer.rows)
    {
      if answer.Refused? {
        return false;
      }
      var rows := answer.rows;
      var seenKeys: set<string> := {};
      for i := 0 to |rows|
        invariant cache.View() == LoadRows(old(cache.View()), rows[..i]) && seenKeys == Seen(rows[..i])
      {
        assert rows[..i + 1][..i] == rows[..i];
        if rows[i].data.Parsed? {
          cache.Set(rows[i].key, rows[i].data.config);
          seenKeys := seenKeys + {rows[i].key};
        }
      }
      assert rows[..|rows|] == rows;
      ghost var loaded := cache.View();
      var keys := cache.Keys();
      for i := 0 to |keys|
        invariant cache.View() == DropOthers(loaded, keys[..i], seenKeys)
      {
        assert keys[..i + 1][..i] == keys[..i];
        if keys[i] !in seenKeys {
          cache.Delete(keys[i]);
        }
      }
      assert keys[..|keys|] == keys;
      ok := !answer.broken;
    }

    /** The cursor moves only after a complete answer. */
    method RefreshIncremental(answer: Rows) returns (ok: bool)
      modifies cache, this`incCursor
      ensures ok == answer.Complete()
      ensures cache.View() == if answer.Refused? then old(cache.View()) else
        Refreshed(old(cache.View()), answer.rows, softDelete)
      ensures incCursor == if ok then Advanced(old(incCursor), answer.rows, softDelete) else old(incCursor)
    {
      if answer.Refused? {
        return false;
      }
      var rows := answer.rows;
      var newest := incCursor;
      for i := 0 to |rows|
        invariant cache.View() == Refreshed(old(cache.View()), rows[..i], softDelete)
        invariant incCursor == old(incCursor) && newest == Advanced(incCursor, rows[..i], softDelete)
        invariant newest == incCursor || Later(newest, incCursor)
      {
        var row := rows[i];
        assert rows[..i + 1][..i] == rows[..i];
        if row.data.Unscannable? {
          continue;
        }
        if softDelete && row.deleted {
          cache.Delete(row.key);
        } else if row.data.Unparsable? {
          continue;
        } else {
          cache.Set(row.key, row.data.config);
        }
        if Later(row.Stamped(), newest) {
          LaterTransitive(row.Stamped(), newest, incCursor);
          newest := row.Stamped();
        }
      }
      assert rows[..|rows|] == rows;
      if answer.broken {
        return false;
      }
      if Later(newest, incCursor) {
        incCursor := newest;
      }
      ok := true;
    }

    ghost function Polled(): PollState
      reads this, cache
    {
      PollState(cache.View(), incCursor, lastFullRefresh)
    }

    /** One poll: all is what a full query would deliver, changes what the query above the cursor would. */
    method RefreshOnce(now: int, all: Rows, changes: Rows) returns (ok: bool)
      modifies this`lastFullRefresh, this`incCursor, cache
      ensures (Polled(), ok) == Poll(refreshMode, softDelete, fullRefreshInterval, old(Polled()), now, all, changes)
      ensures refreshMode == Incremental && fullRefreshInterval > 0 && ok ==>
        now - lastFullRefresh < fullRefreshInterval
      ensures refreshMode == Incremental
        && (fullRefreshInterval <= 0 || (old(lastFullRefresh) != 0 && now - old(lastFullRefresh) < fullRefreshInterval))
        ==> lastFullRefresh == old(lastFullRefresh) && ok == changes.Complete()
    {
      match refreshMode
      case Full =>
        ok := RefreshFull(all);
        if ok {
          lastFullRefresh := now;
        }
      case Incremental =>
        if fullRefreshInterval > 0 {
          if lastFullRefresh == 0 || now - lastFullRefresh >= fullRefreshInterval {
            ok := RefreshFull(all);
            if !ok {
              return;
            }
            lastFullRefresh := now;
            return;
          }
        }
        ok := RefreshIncremental(changes);
      case Other =>
        ok := false;
    }

    method Get(key: string, now: int, answer: Answer) returns (config: RouteCache.Cached, failed: bool)
      modifies cache, this`healthy
      ensures ReadResult(cache.View(), config, failed) == Read(old(cache.View()), old(healthy), key, now, answer)
      ensures healthy == (old(healthy) && !failed)
    {
      failed := false;
      config := cache.Get(key, now);
      if config.Some? {
        return;
      }
      var negative := cache.IsNegativeCached(key, now);
      if negative || !healthy {
        return None, false;
      }
      config := cache.Get(key, now);
      if config.Some? {
        return;
      }
      match answer
      case NoRow =>
        cache.SetNegative(key, now);
      case QueryFailed =>
        healthy := false;
        failed := true;
      case Found(Unscannable) =>
        healthy := false;
        failed := true;
      case Found(Parsed(c)) =>
        cache.Set(key, c);
        config := c;
      case Found(Unparsable) =>
    }
  }

  // ----- the order of stamps

  lemma {:induction false} KeyLessOrder(a: string, b: string, c: string)
    ensures !KeyLess(a, a)
    ensures KeyLess(a, b) || KeyLess(b, a) || a == b
    ensures KeyLess(a, b) && KeyLess(b, c) ==> KeyLess(a, c)
  {
    if a != [] {
      KeyLessOrder(a[1..], if b == [] then [] else b[1..], if c == [] then [] else c[1..]);
    }
  }

  lemma LaterTransitive(a: Stamp, b: Stamp, c: Stamp)
    ensures Later(a, b) && (b == c || Later(b, c)) ==> Later(a, c)
    ensures Later(a, b) || Later(b, a) || a == b
    ensures !Later(a, a)
  {
    KeyLessOrder(c.key, b.key, a.key);
    KeyLessOrder(a.key, b.key, a.key);
  }

  /** The strings agree before position i, where a ends or has the smaller character. */
  ghost predicate DifferAt(a: string, b: string, i: int) {
    0 <= i < |b| && i <= |a| && a[..i] == b[..i] && (i == |a| || a[i] < b[i])
  }

  /** Strings are ordered by their first difference; a proper prefix comes first. */
  lemma {:induction false} KeyLessIs(a: string, b: string)
    ensures KeyLess(a, b) <==> exists i :: DifferAt(a, b, i)
  {
    if a != [] && b != [] {
      KeyLessIs(a[1..], b[1..]);
      if a[0] < b[0] {
        assert DifferAt(a, b, 0);
      }
      if i :| a[0] == b[0] && DifferAt(a[1..], b[1..], i) {
        assert a[..i + 1] == [a[0]] + a[1..][..i] && b[..i + 1] == [b[0]] + b[1..][..i];
        assert DifferAt(a, b, i + 1);
      }
      if i :| i > 0 && DifferAt(a, b, i) {
        assert a[0] == a[..i][0] == b[..i][0] == b[0];
        assert a[1..][..i - 1] == a[..i][1..] && b[1..][..i - 1] == b[..i][1..];
        assert DifferAt(a[1..], b[1..], i - 1);
      }
    } else if b != [] {
      assert DifferAt(a, b, 0);
    }
  }

  /** Time decides first, the key only between equal times. */
  lemma LaterIs(a: Stamp, b: Stamp)
    ensures a.time > b.time ==> Later(a, b) && !Later(b, a)
    ensures a.time == b.time ==> (Later(a, b) <==> KeyLess(b.key, a.key))
  {
  }

  // ----- what a lookup answers

  /** A stored configuration that is not hidden is the answer, whatever the table and the health. */
  lemma StoredIsAnswered(s: RouteCache.State, healthy: bool, key: string, now: int, answer: Answer)
    requires !s.Hidden(key, now) && s.Lookup(key).Some? && s.Lookup(key).value.Some?
    ensures var read := Read(s, healthy, key, now, answer); read.config == s.Lookup(key).value && !read.failed
  {
  }

  /** Under a valid negative entry, or asked of an unhealthy source what is not stored, the answer is nil. */
  lemma HiddenIsNil(s: RouteCache.State, healthy: bool, key: string, now: int, answer: Answer)
    requires s.Hidden(key, now) || (!healthy && (s.Lookup(key).None? || s.Lookup(key).value.None?))
    ensures var read := Read(s, healthy, key, now, answer); read.config == None && !read.failed
  {
  }

  /** What is neither stored nor hidden a healthy source answers from the table: the configuration found, nil for no
      row or one that does not parse, and a failure for a failing query or scan. The configuration is stored, and a
      missing row remembered for as long as negative entries live. */
  lemma TableIsAsked(s: RouteCache.State, key: string, now: int, answer: Answer)
    requires s.maxSize > 0 && !s.Hidden(key, now) && (s.Lookup(key).None? || s.Lookup(key).value.None?)
    ensures var read := Read(s, true, key, now, answer);
      && read.config == (if answer.Found? && answer.data.Parsed? then answer.data.config else None)
      && (read.failed <==> answer.QueryFailed? || (answer.Found? && answer.data.Unscannable?))
      && (answer.Found? && answer.data.Parsed? ==> read.cache.Lookup(key) == Some(answer.data.config))
      && (answer.NoRow? ==> forall later :: read.cache.Hidden(key, later) <==> later < now + s.negativeTTL)
  {
    hide Lru.Find, Lru.Without, Lru.Touch;
    UntouchedByMiss(s.lru, key);
  }

  lemma UntouchedByMiss(l: seq<Lru.Entry<RouteCache.Cached>>, key: string)
    ensures Lru.Find(Lru.Touch(l, key), key) == Lru.Find(l, key)
    ensures Lru.Find(Lru.Touch(Lru.Touch(l, key), key), key) == Lru.Find(l, key)
    ensures forall size: nat, value :: size > 0 ==>
      Lru.Find(Lru.Add(Lru.Touch(Lru.Touch(l, key), key), size, key, value), key) == Some(value)
  {
    FrontFound(l, key);
    FrontFound(Lru.Touch(l, key), key);
  }

  lemma FrontFound(l: seq<Lru.Entry<RouteCache.Cached>>, key: string)
    ensures Lru.Find(Lru.Touch(l, key), key) == Lru.Find(l, key)
  {
  }
}
