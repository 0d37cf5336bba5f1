/** The route cache: a bounded LRU of configurations, a map of negative entries with expiry times, and
    counters; the object first, then what holds over every history of operations. */
module RouteCache {
  import opened Base
  import opened Lru
  import opened Routes

  const DEFAULT_MAX_SIZE := 10000
  const DEFAULT_NEGATIVE_TTL := 30_000_000_000

  /** A cached value is a configuration or, as in Go, nil. */
  type Cached = Option<RouteConfig>

  datatype State = State(maxSize: nat, lru: seq<Entry<Cached>>, negativeTTL: int, negative: map<string, int>,
                         hits: nat, misses: nat, negativeHits: nat)
  {
    ghost predicate Valid() {
      maxSize > 0 && Distinct(lru) && |lru| <= maxSize
    }

    /** An unexpired negative entry hides the key. */
    predicate Hidden(key: string, now: int) {
      key in negative && now < negative[key]
    }

    /** What is stored under a key, hidden or not. */
    function Lookup(key: string): Option<Cached> {
      Find(lru, key)
    }
  }

  datatype Op =
    | Get(key: string, now: int)
    | IsNegativeCached(key: string, now: int)
    | SetNegative(key: string, now: int)
    | SetNegativeTTL(ttl: int)
    | Set(key: string, config: Cached)
    | Delete(key: string)
    | Clear

  function GetResult(s: State, key: string, now: int): Cached {
    if s.Hidden(key, now) || s.Lookup(key).None? then None else s.Lookup(key).value
  }

  /** Counters are 64 bits wide. */
  function Count(n: nat): nat {
    (n + 1) % TWO64
  }

  function Apply(s: State, op: Op): State {
    match op
    case Get(key, now) =>
      if s.Hidden(key, now) then s.(hits := Count(s.hits), negativeHits := Count(s.negativeHits))
      else
        var t := s.(negative := s.negative - {key}, lru := Touch(s.lru, key));
        if s.Lookup(key).Some? then t.(hits := Count(s.hits)) else t.(misses := Count(s.misses))
    case IsNegativeCached(key, now) =>
      if s.Hidden(key, now) then s else s.(negative := s.negative - {key})
    case SetNegative(key, now) => s.(negative := s.negative[key := now + s.negativeTTL])
    case SetNegativeTTL(ttl) => s.(negativeTTL := ttl)
    case Set(key, config) => s.(negative := s.negative - {key}, lru := Add(s.lru, s.maxSize, key, config))
    case Delete(key) => s.(negative := s.negative - {key}, lru := Without(s.lru, key))
    case Clear => s.(lru := [], negative := map[], hits := 0, misses := 0, negativeHits := 0)
  }

  function Fresh(maxSize: int): State {
    State(if maxSize <= 0 then DEFAULT_MAX_SIZE else maxSize, [], DEFAULT_NEGATIVE_TTL, map[], 0, 0, 0)
  }

  function KeysOldestFirst(lru: seq<Entry<Cached>>): (keys: seq<string>)
    ensures |keys| == |lru| && forall i :: 0 <= i < |keys| ==> keys[i] == lru[|keys| - 1 - i].key
  {
    seq(|lru|, i requires 0 <= i < |lru| => lru[|lru| - 1 - i].key)
  }

  class RouteCache {
    var maxSize: nat
    var lru: seq<Entry<Cached>>
    var negativeTTL: int
    var negative: map<string, int>
    var hits: nat
    var misses: nat
    var negativeHits: nat

    ghost function View(): State
      reads this
    {
      State(maxSize, lru, negativeTTL, negative, hits, misses, negativeHits)
    }

    constructor (maxSize: int)
      ensures View() == Fresh(maxSize) && View().Valid()
    {
      this.maxSize := if maxSize <= 0 then DEFAULT_MAX_SIZE else maxSize;
      lru, negativeTTL, negative := [], DEFAULT_NEGATIVE_TTL, map[];
      hits, misses, negativeHits := 0, 0, 0;
    }

    method Get(key: string, now: int) returns (config: Cached)
      modifies this
      ensures View() == Apply(old(View()), Op.Get(key, now))
      ensures config == GetResult(old(View()), key, now)
    {
      if key in negative {
        if now < negative[key] {
          negativeHits := Count(negativeHits);
          hits := Count(hits);
          return None;
        }
        negative := negative - {key};
      }
      assert negative == old(negative) - {key};
      var found := Find(lru, key);
      if found.Some? {
        lru := Touch(lru, key);
        hits := Count(hits);
        return found.value;
      }
      misses := Count(misses);
      config := None;
    }

    method IsNegativeCached(key: string, now: int) returns (yes: bool)
      modifies this`negative
      ensures View() == Apply(old(View()), Op.IsNegativeCached(key, now))
      ensures yes == old(View()).Hidden(key, now)
    {
      if key in negative {
        if now < negative[key] {
          return true;
        }
        negative := negative - {key};
      }
      assert negative == old(negative) - {key};
      yes := false;
    }

    method SetNegative(key: string, now: int)
      modifies this`negative
      ensures View() == Apply(old(View()), Op.SetNegative(key, now))
    {
      negative := negative[key := now + negativeTTL];
    }

    method SetNegativeTTL(ttl: int)
      modifies this`negativeTTL
      ensures View() == Apply(old(View()), Op.SetNegativeTTL(ttl))
    {
      negativeTTL := ttl;
    }

    method Set(key: string, config: Cached)
      modifies this`negative, this`lru
      ensures View() == Apply(old(View()), Op.Set(key, config))
    {
      negative := negative - {key};
      lru := Add(lru, maxSize, key, config);
    }

    method Delete(key: string)
      modifies this`negative, this`lru
      ensures View() == Apply(old(View()), Op.Delete(key))
    {
      negative := negative - {key};
      lru := Without(lru, key);
    }

    /** The stored keys, oldest first. */
    method Keys() returns (keys: seq<string>)
      ensures keys == KeysOldestFirst(View().lru)
    {
      keys := KeysOldestFirst(lru);
    }

    method Len() returns (n: nat)
      ensures n == |View().lru|
    {
      n := |lru|;
    }

    method Clear()
      modifies this
      ensures View() == Apply(old(View()), Op.Clear)
    {
      lru := [];
      var pending := negative.Keys;
      while pending != {}
        invariant pending == negative.Keys
        invariant View() == old(View()).(lru := [], negative := negative)
      {
        var k :| k in pending;
        pending := pending - {k};
        negative := negative - {k};
      }
      hits, misses, negativeHits := 0, 0, 0;
    }
  }

  // ----- histories

  function After(maxSize: int, history: seq<Op>): State {
    if history == [] then Fresh(maxSize)
    else Apply(After(maxSize, history[..|history| - 1]), history[|history| - 1])
  }

  lemma ApplyKeepsValid(s: State, op: Op)
    requires s.Valid()
    ensures Apply(s, op).Valid() && Apply(s, op).maxSize == s.maxSize
  {
    match op
    case Get(key, _) => TouchKeepsShape(s.lru, key);
    case Set(key, config) => AddKeepsShape(s.lru, s.maxSize, key, config);
    case Delete(key) => WithoutDistinct(s.lru, key);
    case _ =>
  }

  /** In every history the number of entries never exceeds the maximum. */
  lemma {:induction false} NeverTooLarge(maxSize: int, history: seq<Op>)
    ensures After(maxSize, history).Valid() && After(maxSize, history).maxSize == Fresh(maxSize).maxSize
  {
    if history != [] {
      NeverTooLarge(maxSize, history[..|history| - 1]);
      ApplyKeepsValid(After(maxSize, history[..|history| - 1]), history[|history| - 1]);
    }
  }

  /** The configuration of the latest Set of the key with no later Delete or Clear. */
  function LatestSet(history: seq<Op>, key: string): Option<Cached> {
    if history == [] then None
    else match history[|history| - 1]
      case Set(k, config) => if k == key then Some(config) else LatestSet(history[..|history| - 1], key)
      case Delete(k) => if k == key then None else LatestSet(history[..|history| - 1], key)
      case Clear => None
      case _ => LatestSet(history[..|history| - 1], key)
  }

  /** In every history whatever is stored under a key is the configuration of its latest Set. */
  lemma {:induction false} StoredIsLatestSet(maxSize: int, history: seq<Op>, key: string)
    ensures After(maxSize, history).Lookup(key).Some?
      ==> After(maxSize, history).Lookup(key) == LatestSet(history, key)
  {
    hide Find, Add, Touch, Without;
    if history != [] {
      var before, op := history[..|history| - 1], history[|history| - 1];
      var s := After(maxSize, before);
      StoredIsLatestSet(maxSize, before, key);
      NeverTooLarge(maxSize, before);
      match op
      case Get(k, _) => FindAfterTouch(s.lru, k, key);
      case Set(k, config) => FindAfterAdd(s.lru, s.maxSize, k, config, key);
      case Delete(k) => FindAfterRemove(s.lru, k, key);
      case _ =>
    }
  }

  /** A Get that answers with a configuration answers with the latest one set. */
  lemma GetReturnsLatestSet(maxSize: int, history: seq<Op>, key: string, now: int)
    ensures GetResult(After(maxSize, history), key, now).Some?
      ==> LatestSet(history, key) == Some(GetResult(After(maxSize, history), key, now))
  {
    StoredIsLatestSet(maxSize, history, key);
  }

  function GetsSinceClear(history: seq<Op>): nat {
    if history == [] || history[|history| - 1].Clear? then 0
    else GetsSinceClear(history[..|history| - 1]) + if history[|history| - 1].Get? then 1 else 0
  }

  /** The Gets since the last Clear by outcome. */
  datatype Outcomes = Outcomes(hits: nat, misses: nat, negativeHits: nat)

  function OutcomesSinceClear(maxSize: int, history: seq<Op>): (o: Outcomes)
    ensures o.hits + o.misses == GetsSinceClear(history) && o.negativeHits <= o.hits
  {
    if history == [] || history[|history| - 1].Clear? then Outcomes(0, 0, 0)
    else
      var s, op := After(maxSize, history[..|history| - 1]), history[|history| - 1];
      var o := OutcomesSinceClear(maxSize, history[..|history| - 1]);
      if !op.Get? then o
      else if s.Hidden(op.key, op.now) then o.(hits := o.hits + 1, negativeHits := o.negativeHits + 1)
      else if s.Lookup(op.key).Some? then o.(hits := o.hits + 1)
      else o.(misses := o.misses + 1)
  }

  /** The counter shows n. */
  predicate Shows(counter: nat, n: nat) {
    counter == n % TWO64
  }

  lemma ShowsOneMore(counter: nat, n: nat)
    ensures Shows(0, 0)
    ensures Shows(counter, n) ==> Shows(Count(counter), n + 1)
  {
    var q := n / TWO64;
    assert n == q * TWO64 + n % TWO64;
    ModShift(n % TWO64 + 1, q);
  }

  lemma {:induction false} CountersShowOutcomes(maxSize: int, history: seq<Op>)
    ensures var s, o := After(maxSize, history), OutcomesSinceClear(maxSize, history);
      Shows(s.hits, o.hits) && Shows(s.misses, o.misses) && Shows(s.negativeHits, o.negativeHits)
  {
    hide Find, Add, Touch, Without, Shows, Count, GetsSinceClear;
    ShowsOneMore(0, 0);
    if history != [] {
      var before := history[..|history| - 1];
      var s, o := After(maxSize, before), OutcomesSinceClear(maxSize, before);
      CountersShowOutcomes(maxSize, before);
      ShowsOneMore(s.hits, o.hits);
      ShowsOneMore(s.misses, o.misses);
      ShowsOneMore(s.negativeHits, o.negativeHits);
    }
  }

  /** In every history hits and misses together count the Gets since the last Clear modulo 2^64; until there
      have been 2^64 of them they count exactly, and negative hits are no more than hits. */
  lemma CountersCountGets(maxSize: int, history: seq<Op>)
    ensures var s := After(maxSize, history);
      && (s.hits + s.misses) % TWO64 == GetsSinceClear(history) % TWO64
      && (GetsSinceClear(history) < TWO64 ==>
            s.hits + s.misses == GetsSinceClear(history) && s.negativeHits <= s.hits)
  {
    hide After, GetsSinceClear, OutcomesSinceClear;
    CountersShowOutcomes(maxSize, history);
    var o := OutcomesSinceClear(maxSize, history);
    ModSum(o.hits, o.misses);
  }

  lemma ModSum(a: nat, b: nat)
    ensures (a % TWO64 + b % TWO64) % TWO64 == (a + b) % TWO64
  {
    ModShift(a % TWO64 + b % TWO64, a / TWO64 + b / TWO64);
  }

  // ----- how long a key survives

  /** The keys an operation moves to the front. */
  function Uses(s: State, op: Op): set<string> {
    match op
    case Set(key, _) => {key}
    case Get(key, now) => if !s.Hidden(key, now) && s.Lookup(key).Some? then {key} else {}
    case _ => {}
  }

  /** The keys used by the operations from number j on. */
  function UsedFrom(maxSize: int, history: seq<Op>, j: nat): set<string> {
    if |history| <= j then {}
    else
      var before := history[..|history| - 1];
      UsedFrom(maxSize, before, j) + Uses(After(maxSize, before), history[|history| - 1])
  }

  predicate Drops(op: Op, key: string) {
    op.Clear? || (op.Delete? && op.key == key)
  }

  /** The key is stored, and only keys of the given set are more recent. */
  ghost predicate Behind(l: seq<Entry<Cached>>, key: string, ahead: set<string>) {
    l != [] && (l[0].key == key || (l[0].key in ahead && Behind(l[1..], key, ahead)))
  }

  lemma {:induction false} BehindIsStored(l: seq<Entry<Cached>>, key: string, ahead: set<string>)
    requires Behind(l, key, ahead)
    ensures Find(l, key).Some?
  {
    if l[0].key != key {
      BehindIsStored(l[1..], key, ahead);
    }
  }

  lemma {:induction false} BehindMonotone(l: seq<Entry<Cached>>, key: string, ahead: set<string>, more: set<string>)
    requires Behind(l, key, ahead) && ahead - {key} <= more
    ensures Behind(l, key, more)
  {
    if l[0].key != key {
      BehindMonotone(l[1..], key, ahead, more);
    }
  }

  lemma {:induction false} BehindAfterWithout(l: seq<Entry<Cached>>, key: string, ahead: set<string>, k: string)
    requires Behind(l, key, ahead) && k != key
    ensures Behind(Without(l, k), key, ahead)
  {
    if l[0].key != key {
      BehindAfterWithout(l[1..], key, ahead, k);
      if l[0].key != k {
        assert Without(l, k)[1..] == Without(l[1..], k);
      }
    }
  }

  lemma {:induction false} BehindSkips(l: seq<Entry<Cached>>, key: string, ahead: set<string>, k: string)
    requires Behind(l, key, ahead) && forall i :: 0 <= i < |l| ==> l[i].key != k
    ensures Behind(l, key, ahead - {k})
  {
    if l[0].key != key {
      BehindSkips(l[1..], key, ahead, k);
    }
  }

  /** Too few keys can be ahead for the key to be the oldest of the entries. */
  lemma {:induction false} BehindIsNotLast(l: seq<Entry<Cached>>, key: string, ahead: set<string>)
    requires Distinct(l) && Behind(l, key, ahead) && |ahead| + 1 < |l|
    ensures Behind(l[..|l| - 1], key, ahead)
  {
    if l[0].key != key {
      var rest := ahead - {l[0].key};
      BehindSkips(l[1..], key, ahead, l[0].key);
      BehindIsNotLast(l[1..], key, rest);
      assert l[..|l| - 1][1..] == l[1..][..|l[1..]| - 1];
      BehindMonotone(l[..|l| - 1][1..], key, rest, ahead);
    }
  }

  lemma BehindAfterFront(l: seq<Entry<Cached>>, key: string, ahead: set<string>, e: Entry<Cached>)
    requires Behind(l, key, ahead) && e.key != key
    ensures Behind([e] + Without(l, e.key), key, ahead + {e.key})
  {
    BehindAfterWithout(l, key, ahead, e.key);
    BehindMonotone(Without(l, e.key), key, ahead, ahead + {e.key});
    assert ([e] + Without(l, e.key))[1..] == Without(l, e.key);
  }

  lemma BehindAfterTouch(l: seq<Entry<Cached>>, key: string, ahead: set<string>, k: string, more: set<string>)
    requires Behind(l, key, ahead) && ahead - {key} <= more && (Find(l, k).Some? && k != key ==> k in more)
    ensures Behind(Touch(l, k), key, more)
  {
    hide Find;
    BehindMonotone(l, key, ahead, more);
    if Find(l, k).Some? && k != key {
      BehindAfterFront(l, key, more, Entry(k, Find(l, k).value));
      assert more + {k} == more;
    }
  }

  lemma BehindAfterAdd(l: seq<Entry<Cached>>, size: nat, key: string, ahead: set<string>, k: string, value: Cached,
                       more: set<string>)
    requires Distinct(l) && |l| <= size && Behind(l, key, ahead)
    requires size > 0 && ahead - {key} <= more && (k != key ==> k in more) && |more| < size
    ensures Behind(Add(l, size, k, value), key, more)
  {
    var full := [Entry(k, value)] + Without(l, k);
    BehindMonotone(l, key, ahead, more);
    if k != key {
      BehindAfterFront(l, key, more, Entry(k, value));
      assert more + {k} == more;
      if |full| > size {
        AddKeepsShape(l, size + 1, k, value);
        BehindIsNotLast(full, key, more);
      }
    }
  }

  lemma BehindAfterOp(s: State, op: Op, key: string, ahead: set<string>, more: set<string>)
    requires s.Valid() && Behind(s.lru, key, ahead) && !Drops(op, key)
    requires ahead - {key} <= more && Uses(s, op) - {key} <= more && |more| < s.maxSize
    ensures Behind(Apply(s, op).lru, key, more)
  {
    hide Find, Behind, Touch, Add, Without;
    BehindMonotone(s.lru, key, ahead, more);
    match op
    case Get(k, now) =>
      if !s.Hidden(k, now) {
        BehindAfterTouch(s.lru, key, ahead, k, more);
      }
    case Set(k, config) => BehindAfterAdd(s.lru, s.maxSize, key, ahead, k, config, more);
    case Delete(k) => BehindAfterWithout(s.lru, key, more, k);
    case _ =>
  }

  /** A key used by operation number j - 1 is still stored as long as fewer than maxSize distinct other
      keys have been used since, and neither Delete nor Clear dropped it. */
  lemma {:induction false} SurvivesUntilCrowdedOut(maxSize: int, history: seq<Op>, j: nat, key: string)
    requires j <= |history|
    requires var l := After(maxSize, history[..j]).lru; l != [] && l[0].key == key
    requires forall i :: j <= i < |history| ==> !Drops(history[i], key)
    requires |UsedFrom(maxSize, history, j) - {key}| < Fresh(maxSize).maxSize
    ensures Behind(After(maxSize, history).lru, key, UsedFrom(maxSize, history, j) - {key})
    ensures After(maxSize, history).Lookup(key).Some?
  {
    hide Apply, Find, Uses, Drops, Behind, Fresh;
    var n := |history| - 1;
    if |history| == j {
      assert history[..j] == history;
      UsedKeyIsInFront(After(maxSize, history).lru, key);
      assert UsedFrom(maxSize, history, j) - {key} == {};
    } else {
      var before, op := history[..n], history[n];
      var s := After(maxSize, before);
      var used, all := UsedFrom(maxSize, before, j) - {key}, UsedFrom(maxSize, history, j) - {key};
      assert before[..j] == history[..j];
      assert used <= all;
      SubsetSize(used, all);
      SurvivesUntilCrowdedOut(maxSize, before, j, key);
      NeverTooLarge(maxSize, before);
      BehindAfterOp(s, op, key, used, all);
    }
    BehindIsStored(After(maxSize, history).lru, key, UsedFrom(maxSize, history, j) - {key});
  }

  lemma UsedKeyIsInFront(l: seq<Entry<Cached>>, key: string)
    requires l != [] && l[0].key == key
    ensures Behind(l, key, {})
  {
  }

  // ----- what a Get answers

  /** The lifetime of negative entries: the latest one set, or half a minute. */
  function TtlAfter(history: seq<Op>): int {
    if history == [] then 30_000_000_000
    else
      var last := history[|history| - 1];
      if last.SetNegativeTTL? then last.ttl else TtlAfter(history[..|history| - 1])
  }

  /** When the latest negative entry of the key expires, unless the key was set, deleted or cleared since. */
  function LastNegative(history: seq<Op>, key: string): Option<int> {
    if history == [] then None
    else
      var before := history[..|history| - 1];
      match history[|history| - 1]
      case SetNegative(k, now) => if k == key then Some(now + TtlAfter(before)) else LastNegative(before, key)
      case Set(k, _) => if k == key then None else LastNegative(before, key)
      case Delete(k) => if k == key then None else LastNegative(before, key)
      case Clear => None
      case _ => LastNegative(before, key)
  }

  /** The clock showed no later time than now. */
  ghost predicate NotAfter(history: seq<Op>, now: int) {
    forall i :: 0 <= i < |history| ==> TimeOf(history[i], now) <= now
  }

  function TimeOf(op: Op, default: int): int {
    match op
    case Get(_, now) => now
    case IsNegativeCached(_, now) => now
    case SetNegative(_, now) => now
    case _ => default
  }

  lemma {:induction false} TtlIsLatest(maxSize: int, history: seq<Op>)
    ensures After(maxSize, history).negativeTTL == TtlAfter(history)
  {
    if history != [] {
      TtlIsLatest(maxSize, history[..|history| - 1]);
    }
  }

  lemma {:induction false} NegativeEntryIsLast(maxSize: int, history: seq<Op>, key: string, now: int)
    requires NotAfter(history, now)
    ensures var s, e := After(maxSize, history), LastNegative(history, key);
      if key in s.negative then e == Some(s.negative[key]) else e.None? || e.value <= now
  {
    hide Find, Add, Touch, Without, TtlAfter;
    if history != [] {
      var before, op := history[..|history| - 1], history[|history| - 1];
      assert TimeOf(op, now) <= now;
      assert forall i :: 0 <= i < |before| ==> before[i] == history[i];
      TtlIsLatest(maxSize, before);
      NegativeEntryIsLast(maxSize, before, key, now);
    }
  }

  /** With a clock that does not go back, a Get answers nil until the latest negative entry expires, and otherwise
      the latest configuration set, if that is still stored, or nil. */
  lemma GetAnswers(maxSize: int, history: seq<Op>, key: string, now: int)
    requires NotAfter(history, now)
    ensures var s, e := After(maxSize, history), LastNegative(history, key);
      GetResult(s, key, now) ==
        if e.Some? && now < e.value then None
        else if s.Lookup(key).Some? && LatestSet(history, key).Some? then LatestSet(history, key).value
        else None
  {
    hide Find, After, LastNegative, LatestSet;
    NegativeEntryIsLast(maxSize, history, key, now);
    StoredIsLatestSet(maxSize, history, key);
  }

  /** Nothing since then set, deleted, cleared or negatively cached the key. */
  ghost predicate Untouched(history: seq<Op>, j: nat, key: string) {
    forall i :: j <= i < |history| ==>
      !Drops(history[i], key) && !(history[i].Set? && history[i].key == key)
      && !(history[i].SetNegative? && history[i].key == key)
  }

  lemma {:induction false} SetStaysLatest(history: seq<Op>, j: nat, key: string, config: Cached)
    requires j < |history| && history[j] == Set(key, config) && Untouched(history, j + 1, key)
    ensures LatestSet(history, key) == Some(config) && LastNegative(history, key).None?
  {
    var n := |history| - 1;
    if j < n {
      assert !Drops(history[n], key);
      SetStaysLatest(history[..n], j, key, config);
    }
  }

  /** What was set is read back as long as nothing else was done to the key and fewer than maxSize distinct other
      keys have been used since. */
  lemma SetIsReadBack(maxSize: int, history: seq<Op>, j: nat, key: string, config: Cached, now: int)
    requires j < |history| && history[j] == Set(key, config) && Untouched(history, j + 1, key)
    requires |UsedFrom(maxSize, history, j + 1) - {key}| < Fresh(maxSize).maxSize && NotAfter(history, now)
    ensures GetResult(After(maxSize, history), key, now) == config
  {
    hide After, LastNegative, LatestSet, UsedFrom, GetResult, Find;
    SetStaysLatest(history, j, key, config);
    SetIsInFront(maxSize, history, j);
    SurvivesUntilCrowdedOut(maxSize, history, j + 1, key);
    GetAnswers(maxSize, history, key, now);
  }

  lemma SetIsInFront(maxSize: int, history: seq<Op>, j: nat)
    requires j < |history| && history[j].Set?
    ensures var l := After(maxSize, history[..j + 1]).lru; l != [] && l[0].key == history[j].key
  {
    hide Without;
    assert history[..j + 1][..j] == history[..j];
    NeverTooLarge(maxSize, history[..j]);
  }

  /** Asking for a key removes its negative entry if that has expired, and leaves every other entry alone. */
  lemma ExpiredIsRemoved(s: State, key: string, other: string, now: int)
    ensures key in Apply(s, Get(key, now)).negative <==> s.Hidden(key, now)
    ensures key in Apply(s, IsNegativeCached(key, now)).negative <==> s.Hidden(key, now)
    ensures other != key ==>
      && (other in Apply(s, Get(key, now)).negative <==> other in s.negative)
      && (other in Apply(s, IsNegativeCached(key, now)).negative <==> other in s.negative)
  {
  }

  /** A new cache holds as many entries as it is told to, or 10000. */
  lemma FreshCache(maxSize: int)
    ensures Fresh(maxSize).maxSize == if maxSize > 0 then maxSize else 10000
    ensures Fresh(maxSize).lru == [] && Fresh(maxSize).negative == map[]
  {
  }
}
