# Routing decisions of caddy-dynamic-routing, verified

This project models, in Dafny, how caddy-dynamic-routing decides where a request goes, and proves what that
decision promises over every input and every run:

- **Upstream selection.** Smooth weighted round-robin is shown to be exact, periodic and smooth, first over
  unbounded integers (`SmoothWrr`), then for the 64-bit machine over every history of calls with changing lists
  (`WrrHistory`), with the exact bound up to which the machine does the same (`WrrLimits`); the selector class is
  proved against that machine. Round-robin is fair in every window of
  ticket draws, with the exact condition under which the wrapping counter disturbs it. The consistent-hash ring
  is shown to be what a scan of the circle of hashes says, to move only the keys it must when a list changes,
  and to be independent of list order. Least connections finds the unique optimum; weighted random is an exact
  inverse of the cumulative weights.
- **The SQL source and its cache.** The cache is an LRU with negative entries and counters, with properties over
  every history. An incremental refresh above a cursor is shown to refine a full reload over every run of
  writes, lookups, broken and complete refreshes, as stored and as read; and exactly when a single refresh does.
- **The composite source.** Parallel fetches, arriving in any order, give what the sequential loops give; merging
  is associative, so nested merges flatten, and writes to no source configuration.
- **Repeated replacement in an unspecified order.** Shortcut expansion and key templates replace tokens while
  walking a Go map. One theorem says when every order equals a single left-to-right pass; expansion always meets
  it. For templates with brace-free values, what every single order renders is given exactly, nested placeholders
  included; for others, when every order succeeds.
- **The choice as a whole.** Configurations are parsed and normalised, rules matched by priority, candidates
  filtered by pool and availability, one selected, and the instance key falls back to the version key.

Modules follow the components: a class or method for each part of the program that changes state, a function that
says what it computes, and lemmas about that function.

| modules | component |
|---|---|
| Base, Sorting, Text, Lru, Requests, Routes | machine integers, `sort.Slice`, trimming, the LRU library, requests, configurations |
| SmoothWrr, WrrHistory, WrrLimits, RoundRobin, Balance, HashRing, RingStability, Memo, Selector | matcher/selector.go |
| RouteCache, SqlSource, SqlRuns | datasource/cache/cache.go, datasource/sql/sql.go |
| Merging, Composite | datasource/composite/composite.go |
| Rewriting, Extractor, KeyTemplate, Nesting | extractor/extractor.go, gateway_jwt.go |
| Parsing, Priorities, RuleMatcher, DynamicSelection | datasource/types.go, matcher/matcher.go, plugin.go |

What a specification function computes is in turn pinned down by lemmas that do not use it: `Selector` says of each
algorithm what it chooses, `RouteCache` and `SqlSource` what is answered, `DynamicSelection` why a key leads nowhere.

`dafny verify dfyconfig.toml` checks the whole project.

## How the program is represented

- Go's `int` is an integer that every operation wraps to 64 bits (`Base.Int64`); the round-robin counter wraps at
  2^64. Integer division truncates.
- FNV is any function from strings to 32-bit numbers: every result about hashing holds for all of them, and needs
  no more than what its `requires` says about collisions.
- `rand.Intn` is any function that answers with a number in range; the clock is an integer parameter; the
  replacer, header lookup, regular expressions, JSON and YAML decoders, the data source and the availability
  check are function parameters.
- `sort.Slice` is used through its promise only: a permutation in order, ties in any order.
- A Go map is walked, and a channel received from, in an order chosen by `:|`, about which nothing is known.
- hashicorp's LRU is a sequence of entries, most recent first.
- A database is seen through the answers to its queries: refused, or a sequence of rows that may break off. The
  order of strings is Go's, in the query as in the program.
- The weighted round-robin mutex makes one call one atomic step, so a run is a sequence of calls.
- One source function is sometimes several methods here, one for a loop or a group of assignments
  (`RaiseAndScan`, `Filter`, `MergeTexts`, `Metadata.AddAll`, `ReplacePlaceholders`).

## What the proofs found

- Weighted round-robin chooses as it should, and no upstream is ever a full pick ahead of its share, for all lists of
  up to n upstreams with weights up to M, if and only if n times M is below 2^63 (`WrrLimits.ExactIff`). The tight
  maximum of a current weight is n - 1 times the heaviest weight, attained by equal weights
  (`SmoothWrr.CurrentsAtMost`, `SmoothWrr.BoundIsAttained`).
- Least connections is right for all counts up to C and weights up to M if and only if C times M is below 2^63
  (`Balance.LeastConnectionsExactIff`); beyond, a loaded upstream of weight 1 is kept before an idle one of weight M.
- Weighted random gives every upstream its exact share of targets if and only if the weights add up to less than
  2^63 (`Balance.ExactOddsIff`).
- The counter's wrap makes a window of draws unfair, by at most one pick, unless the list length divides 2^64 or
  the window starts in step with the wrap (`RoundRobin.WindowFair`).
- The cached ring and the pool index are kept while a fingerprint is unchanged: the 32-bit hash of addresses and
  the low 16 bits of weights, and the length of the pool. Both are right exactly for runs whose consecutive
  different inputs have different fingerprints (`Memo.FreshIffSeparated`); weights that differ by a multiple of
  65536 never do (`RingStability.FingerprintMissesHighBits`), and a key can then be answered with an upstream that
  does not own it (`Selector.CachedRingCanBeWrong`); two pools of one length make a call take a candidate that is no
  longer in the pool (`DynamicSelection.StaleIndexTakesTheWrongCandidate`).
- A full refresh that breaks off deletes every live key whose row did not arrive
  (`SqlRuns.PartialReloadShowsTableIff`). An incremental refresh misses hard deletes, writes stamped at or below
  the cursor, and rows that do not parse (`SqlRuns.IncrementalMatchesFullIff`).
- Merged rules are not sorted again: the first match honours priority exactly if the rules are in order
  (`Priorities.PriorityHonouredIffOrdered`), and two configurations merge into an ordered one exactly if the last
  priority of the first is at least the first of the second (`Priorities.MergedRulesOrderedIff`).
- A claim value with braces makes a rendered key depend on map order (`KeyTemplate.BracedValueDependsOnOrder`): if
  the tenant claim is "{service}", the template "{tenant}" renders the service or fails. With values free of braces
  the order can make a template with nested placeholders fail, but never changes the key
  (`Nesting.SuccessesAgree`); it does not matter at all exactly if the template is blank, has an incomplete group,
  nests nothing, or nests names in a circle (`Nesting.OrderIndependentIff`).
- An empty JSON string parses to a configuration with neither upstream nor rules, which every other format
  refuses (`Parsing.ParsedIsNormal`).
- Algorithm names are not checked, so one with a colon can share the selector of another
  (`RuleMatcher.CacheKeyCollision`); two names never do exactly if neither, with its colon, begins the other with
  its own (`RuleMatcher.CacheKeysApartIff`).
- DESIGN.md:61 calls weighted round-robin lock-free, but the code holds a mutex; and
  examples/algorithms/weighted-round-robin.yaml:3-6 describes a blocked order, but the code interleaves. The model
  follows the code.

## Model

| member | source | states |
|---|---|---|
| SmoothWrr.RoundIsExact | matcher/selector.go:128-156 | from a fresh state, W calls (W the total weight) choose every upstream exactly its weight many times and bring every current weight back to 0 |
| SmoothWrr.AnyRoundIsExact | matcher/selector.go:128-156 | wherever a round starts in a run, W consecutive calls choose every upstream exactly its weight many times |
| SmoothWrr.RunIsPeriodic | matcher/selector.go:128-156 | the current weights repeat with period W |
| SmoothWrr.ClosedForm | matcher/selector.go:142-153 | after k calls the current weight of upstream i is k times its weight less W times its picks |
| SmoothWrr.CurrentsSumToZero | matcher/selector.go:142-153 | after every call the current weights sum to 0 |
| SmoothWrr.CurrentsStayBounded | matcher/selector.go:142-153 | at every prefix every current weight is above -W and at most (n-1)(W-1) |
| SmoothWrr.AnyCurrentsBounded | matcher/selector.go:142-153 | at every prefix any j of the n current weights add up to at most j(n-j) times the heaviest weight |
| SmoothWrr.CurrentsAtMost | matcher/selector.go:142-153 | no current weight ever exceeds n-1 times the heaviest weight |
| SmoothWrr.BoundIsAttained | matcher/selector.go:142-153 | n equal weights attain that bound after n-1 calls |
| SmoothWrr.SmoothAtEveryPrefix | matcher/selector.go:128-156 | at every prefix no upstream is a full pick ahead of its share, nor further behind than (n-1)(W-1) or than n-1 times the heaviest weight |
| WrrHistory.ScanFindsTheMaximum | matcher/selector.go:138-150 | the scan seeded with the current weight of position 0 before it is raised still finds the earliest maximum, since weights are positive |
| WrrHistory.MachineStepIsExact | matcher/selector.go:132-155 | with n times the heaviest weight below 2^63 no operation of a call wraps: the machine's choice and state are the exact ones |
| WrrHistory.HistoryIsRun | matcher/selector.go:128-181 | whatever lists came before, a call acts on the state of a fresh run as long as the current streak of one list |
| WrrHistory.FairInEveryHistory | matcher/selector.go:128-181 | in every history any W consecutive calls with one list choose each upstream exactly its effective weight many times |
| WrrHistory.WrappingBreaksFairness | matcher/selector.go:142-153 | two upstreams of weight 2^63 - 1: the exact algorithm alternates, the machine chooses the first twice |
| WrrLimits.ExactIff | matcher/selector.go:128-156 | for all lists of up to n upstreams with effective weights up to M: the machine makes the choices of the exact algorithm at every call, and no upstream is ever a full pick ahead of its share, if and only if n times M is below 2^63 |
| WrrLimits.LeastMisleads | matcher/selector.go:142-153 | for every M, the least number of upstreams of weight M that does not fit: the calls choose each but the last in turn, and then the first again, a full pick ahead of its share |
| RoundRobin.WindowHits | matcher/selector.go:121-124 | how many of k times n consecutive draws fall on each position, counter wrap included |
| RoundRobin.WindowFair | matcher/selector.go:121-124 | between k-1 and k+1 picks for everyone, and exactly k for everyone if and only if the counter does not wrap inside, n divides 2^64, or the window starts in step |
| Balance.PreferredExtends | matcher/selector.go:227-236 | preference is transitive through the best so far: beating it beats all it was chosen over |
| Balance.CrossMultiplication | matcher/selector.go:226-231 | comparing cross products is comparing the ratios of connections to weight as real numbers |
| Balance.PreferredIs | matcher/selector.go:227-236 | a candidate is preferred for a lower real ratio of connections to weight, or the same ratio and more weight |
| Balance.BestIs | matcher/selector.go:215-240 | the best candidate has the lowest ratio, of those the most weight, and of those the earliest position |
| Balance.LeastLoadedIsBest | matcher/selector.go:215-240 | for any counts, negative ones included, whose products fit 64 bits, the scan ends at the candidate that is beaten by none and beats all earlier ones |
| Balance.LeastConnectionsExactIff | matcher/selector.go:215-240 | for counts up to C, negative ones down to -C allowed or not, and weights up to M, the scan always ends at the optimum if and only if C times M is below 2^63 |
| Balance.TooManyMisleads | matcher/selector.go:227-236 | for every M, the least count whose product with M does not fit, at weight 1, is kept before no connections at weight M |
| Balance.BestIsUnique | matcher/selector.go:215-240 | there is only one such candidate |
| Balance.WrappingBreaksLeastConnections | matcher/selector.go:227-236 | weights 1 and 2^62 with 2 and 1 connections: the wrapped comparison keeps the worse |
| Balance.SearchInverts | matcher/selector.go:299-307 | position i is found for exactly the targets from the weight before it up to the weight including it |
| Balance.FairBelowBound | matcher/selector.go:286-310 | below 2^63 the total is positive, and of its targets exactly w_i choose upstream i |
| Balance.ExactOddsIff | matcher/selector.go:286-310 | with the total as the machine adds it up, every upstream is chosen for exactly its weight many targets if and only if the weights add up to less than 2^63 |
| Memo.FreshIffSeparated | matcher/selector.go:268-270 | a kept value serves every call of a run from that call's own input if and only if the fingerprint separates every two consecutive inputs that differ |
| HashRing.LabelsDistinct | matcher/selector.go:399-405 | labels of virtual nodes are equal only for the same address and number, dashes and digits in addresses notwithstanding |
| HashRing.DecimalReadsBack | matcher/selector.go:400 | the number in a label is its decimal digits, without a leading zero |
| HashRing.NodesByUpstream | matcher/selector.go:391-406 | a node is on the ring if and only if its upstream is in the list and the node is one of that upstream's |
| HashRing.ComputeUpstreamsHash | matcher/selector.go:445-455 | the hash of addresses, each followed by the low two bytes of its weight |
| HashRing.FingerprintsAgreeIff | matcher/selector.go:445-455 | exchanging one upstream of any list goes unnoticed under every hash if and only if the address is the same and the weights differ by a multiple of 65536 |
| HashRing.NewConsistentHashRing | matcher/selector.go:382-414 | the nodes are in order of hash and a permutation of the virtual nodes of every upstream of the list |
| HashRing.Get | matcher/selector.go:418-436 | the binary search with wrap-around gives the upstream of the first node, in a scan from the left, at or above the key's hash, else of the first node |
| RingStability.OwnerOwns | matcher/selector.go:418-436 | the answer is an upstream of the list, and its address holds a position at the least clockwise distance from the key |
| RingStability.UniqueIffNoCollision | matcher/selector.go:399-436 | every hash has one owning address if and only if no two addresses share a position |
| RingStability.DistinctHashesDoNotCollide | matcher/selector.go:399-405 | a hash that tells the labels of a list apart lets no two of its addresses share a position |
| RingStability.ExtraPointsTakeOnlyTheirs | matcher/selector.go:418-436 | positions added by one address take keys only for that address |
| RingStability.RemovalMovesOnlyItsKeys | matcher/selector.go:382-436 | removing an upstream moves only keys it owned; adding one moves keys only to it |
| RingStability.LowerWeightMovesOnlyItsKeys | matcher/selector.go:382-436 | lowering a weight moves only keys the upstream owned; raising it moves keys only to it |
| RingStability.OrderDoesNotMatter | matcher/selector.go:382-436 | lists with the same upstreams in any order give every key the same address |
| RingStability.NodeCountScales | matcher/selector.go:393-397 | short of overflow an upstream has virtualNodes times weight over 10 nodes, at least one, and no fewer for more weight |
| RingStability.RingSize | matcher/selector.go:391-406 | the ring has as many nodes as the upstreams' node counts add up to |
| RingStability.FingerprintMissesHighBits | matcher/selector.go:445-455 | changing one weight anywhere in a list by a multiple of 65536 leaves the fingerprint as it is, under every hash |
| Selector.UpstreamSelector.SelectRoundRobin | matcher/selector.go:121-124 | the next ticket modulo the length, and the counter one further, modulo 2^64 |
| Selector.UpstreamSelector.InitWeightedRoundRobin | matcher/selector.go:170-181 | the list, its effective weights, and zeros |
| Selector.UpstreamSelector.ResetWeightedRoundRobin | matcher/selector.go:132-135 | the state is kept for the same list and fresh for any other |
| Selector.UpstreamSelector.RaiseAndScan | matcher/selector.go:137-150 | every current weight is raised, the earliest to exceed all before it and the seed is found, and the total is summed, all in 64 bits |
| Selector.UpstreamSelector.SelectWeightedRoundRobin | matcher/selector.go:128-156 | position and new state are those of one call of the history machine |
| Selector.UpstreamSelector.IncrementConn | matcher/selector.go:252-255 | one more for this address, from 0 if it is new; no other count changes |
| Selector.UpstreamSelector.DecrementConn | matcher/selector.go:259-263 | one less for a known address, below zero if need be; an unknown one is ignored |
| Selector.UpstreamSelector.SelectLeastConn | matcher/selector.go:215-240 | the position the 64-bit scan ends at, which is the optimum when products fit |
| Selector.UpstreamSelector.SelectWeightedRandom | matcher/selector.go:286-310 | the first position whose cumulative weight exceeds the target; the final return is unreachable, and the first branch is taken only when the total wraps |
| Selector.UpstreamSelector.SelectConsistentHash | matcher/selector.go:266-283 | the ring is rebuilt exactly when its fingerprint differs, and the answer owns the header's or client's hash on it |
| Selector.UpstreamSelector.Select | matcher/selector.go:87-118 | nothing for no candidate, the candidate for one without touching the state, and otherwise the choice and the new state of the configured algorithm, other algorithms' state unchanged |
| Selector.RoundRobinChoice | matcher/selector.go:97-98 | round_robin: the upstream at the counter modulo the length, and only the counter moves |
| Selector.WeightedRoundRobinChoice | matcher/selector.go:99-100 | weighted_round_robin: after k calls of a streak on a fitting list, the exact algorithm's choice, and only its state moves |
| Selector.HashedChoice | matcher/selector.go:184-210 | ip_hash, uri_hash, header_hash: the hash of the client's address, the path, or the header's value modulo the length; first: the first |
| Selector.ConsistentHashChoice | matcher/selector.go:266-283 | consistent_hash: the owner of the header's hash, or of the client's where no header is configured or sent, on a ring that is the list's own if there was none or the fingerprint differs |
| Selector.RingFollowsListIff | matcher/selector.go:268-270 | after one upstream was exchanged, some hash makes the call rebuild the ring for the new list if and only if the address differs or the weights differ by no multiple of 65536 |
| Selector.LeastConnChoice | matcher/selector.go:215-248 | least_conn, products fitting: the lowest ratio of counted connections to weight, then the most weight, then the earliest; an address never counted has none |
| Selector.RandomChoice | matcher/selector.go:286-310 | any other name, and header_hash without the header: the upstream whose stretch of the summed weights holds the number drawn |
| Selector.ChoiceIsACandidate | matcher/selector.go:87-118 | the choice is one of the candidates if a ring kept for the call was built from them |
| Selector.ChoiceWithinRun | matcher/selector.go:266-283 | the same for every call of a run whose lists the fingerprint separates |
| Selector.ChoiceKeepsRing | matcher/selector.go:266-283 | a call leaves the ring of before or one built from its own list |
| Selector.CachedRingIsTransparent | matcher/selector.go:266-283 | in a run whose consecutive different lists have different fingerprints, every key has the owner that a ring built afresh would give it |
| Selector.CachedRingCanBeWrong | matcher/selector.go:266-283 | a hash, two lists of two upstreams and a key: the ring of the first list is kept for the second and gives the key to b, where a ring built afresh gives it to a |
| RouteCache.RouteCache.constructor | datasource/cache/cache.go:38-49 | an empty cache of the given size, or of the default size for none or less |
| RouteCache.RouteCache.Get | datasource/cache/cache.go:53-71 | nil while a negative entry is valid; otherwise an expired one is removed and the stored value becomes the most recent; every counter |
| RouteCache.RouteCache.IsNegativeCached | datasource/cache/cache.go:74-82 | whether a negative entry is valid; an expired one is removed |
| RouteCache.RouteCache.SetNegative | datasource/cache/cache.go:86-88 | a negative entry that expires after the negative lifetime |
| RouteCache.RouteCache.SetNegativeTTL | datasource/cache/cache.go:91-93 | the lifetime of later negative entries |
| RouteCache.RouteCache.Set | datasource/cache/cache.go:97-100 | the value in front, the oldest entry gone if that is one too many, no negative entry for the key |
| RouteCache.RouteCache.Delete | datasource/cache/cache.go:104-107 | neither a value nor a negative entry for the key |
| RouteCache.RouteCache.Clear | datasource/cache/cache.go:110-121 | no entries, no negative entries, counters 0 |
| RouteCache.RouteCache.Len | datasource/cache/cache.go:124-126 | the number of entries |
| RouteCache.RouteCache.Keys | datasource/cache/cache.go:146-155 | the stored keys, oldest first |
| RouteCache.NeverTooLarge | datasource/cache/cache.go:38-121 | in every history keys are distinct and no more than the maximum size |
| RouteCache.StoredIsLatestSet | datasource/cache/cache.go:51-121 | in every history whatever is stored under a key is the value of its latest Set with no later Delete or Clear |
| RouteCache.GetReturnsLatestSet | datasource/cache/cache.go:53-71 | a Get that answers with a configuration answers with that one |
| RouteCache.GetAnswers | datasource/cache/cache.go:53-88 | in every history with a clock that does not go back: nil until the latest negative entry of the key expires, by the lifetime in force when it was made; otherwise the latest configuration set, if still stored |
| RouteCache.SetIsReadBack | datasource/cache/cache.go:53-107 | what was set is read back while nothing else was done to the key and fewer than maxSize distinct other keys were used since |
| RouteCache.ExpiredIsRemoved | datasource/cache/cache.go:53-82 | asking for a key removes its negative entry exactly if that has expired, and no other |
| RouteCache.FreshCache | datasource/cache/cache.go:38-49 | a new cache is empty and holds as many entries as told, or 10000 |
| RouteCache.CountersCountGets | datasource/cache/cache.go:53-71 | hits and misses together count the Gets since the last Clear modulo 2^64; below 2^64 of them they count exactly and negative hits are no more than hits |
| RouteCache.SurvivesUntilCrowdedOut | datasource/cache/cache.go:53-107 | a used key is still stored while fewer than maxSize distinct other keys were used since and nothing dropped it |
| SqlSource.SqlSource.InitialLoad | datasource/sql/sql.go:414-458 | every row that scans and parses is stored, in order; a refused query stores nothing |
| SqlSource.SqlSource.InitIncrementalCursor | datasource/sql/sql.go:565-588 | the cursor becomes the newest stamp, and the first full refresh counts as done; an empty table or failed query changes nothing |
| SqlSource.SqlSource.RefreshFull | datasource/sql/sql.go:515-563 | seen rows are stored and every other key deleted, even if the rows broke off; a refused query changes nothing |
| SqlSource.SqlSource.RefreshIncremental | datasource/sql/sql.go:591-699 | soft-deleted rows are deleted and parsed ones stored, in order; the cursor moves to the greatest stamp applied, and only after a complete answer |
| SqlSource.SqlSource.RefreshOnce | datasource/sql/sql.go:482-512 | which refresh a poll makes in each mode and what it leaves; in incremental mode with an interval, a poll that succeeds leaves less than the interval since the last full reload, and within the interval, or without one, it applies the changes only |
| SqlSource.SqlSource.Get | datasource/sql/sql.go:278-357 | cache, then negative entries, then, if healthy, the table: what is answered, what the cache holds after, and when the source turns unhealthy |
| SqlSource.StoredIsAnswered | datasource/sql/sql.go:279-282 | a stored configuration that is not hidden is the answer, whatever the table and the health |
| SqlSource.HiddenIsNil | datasource/sql/sql.go:284-292 | nil and no failure under a valid negative entry, and from an unhealthy source for what is not stored |
| SqlSource.TableIsAsked | datasource/sql/sql.go:301-346 | for what is neither stored nor hidden a healthy source answers the configuration the row parses to, nil for no row or one that does not parse, and fails exactly for a failing query or scan; the configuration is stored, and a missing row hidden for the negative lifetime |
| SqlSource.KeyLessIs | datasource/sql/sql.go:661 | strings are ordered by their first difference, a proper prefix first |
| SqlSource.LaterIs | datasource/sql/sql.go:661 | a later time is a later stamp; the key decides between equal times |
| SqlRuns.ReloadKeepsOnlySeen | datasource/sql/sql.go:537-560 | after a reload, complete or not, the cache holds exactly the rows that arrived and parsed |
| SqlRuns.FullRefreshShowsTable | datasource/sql/sql.go:515-563 | after a complete full refresh the cache holds exactly what the table shows |
| SqlRuns.PartialReloadShowsTableIff | datasource/sql/sql.go:555-562 | a refresh that may have broken off leaves what the table shows if and only if every live readable row had arrived |
| SqlRuns.IncrementalMatchesFullIff | datasource/sql/sql.go:515-699 | an incremental refresh leaves what a full one would if and only if every key whose row is not above the cursor and readable was already right |
| SqlRuns.CursorIsGreatest | datasource/sql/sql.go:647-696 | the new cursor is the greatest of the old one and the stamps applied |
| SqlRuns.ReadLookup | datasource/sql/sql.go:278-357 | a lookup changes no stored value but may store the row of its own key |
| SqlRuns.ReadNegative | datasource/sql/sql.go:322-328 | a lookup adds a negative entry only for its own key, and only when the table has no row for it |
| SqlRuns.LookupShowsTable | datasource/sql/sql.go:278-357 | in every state a run reaches, a lookup by a healthy source of a key without a valid negative entry, uncached or settled, answers as the table shows it |
| SqlRuns.ReloadNegative | datasource/sql/sql.go:537-553 | after a full reload no negative entry hides a key the table shows |
| SqlRuns.StepKeepsSynced | datasource/sql/sql.go:278-699 | every write stamped above the cursor, lookup (its query failing or not), refresh above the cursor (broken off or not) and full reload keeps settled keys in step with the table, and some row at or above the cursor |
| SqlRuns.RunStaysSynced | datasource/sql/sql.go:278-699 | so does every run of them |
| SqlRuns.IncrementalRefinesFull | datasource/sql/sql.go:515-699 | in every run, after each complete incremental refresh every stored value and every Get at any time equals what a full refresh would leave, namely what the table shows; the cursor never decreases, no row is above it, and it is the stamp of a row |
| SqlRuns.DuePollShowsTable | datasource/sql/sql.go:482-507 | a complete poll that is due for a full reload, by mode or because the interval has passed, leaves exactly what the table shows, hard deletes included, whatever the cache held |
| SqlRuns.PollsAreEvents | datasource/sql/sql.go:492-508 | a poll does to cache and cursor what the event of its refresh does; a refused query changes nothing |
| SqlRuns.NeverLongWithoutReload | datasource/sql/sql.go:492-508 | in every run of answered polls with an interval, less than the interval has passed since the last full reload, which left exactly what the table then showed |
| SqlRuns.ProvisionStartsInStep | datasource/sql/sql.go:222-240 | loading the table and taking its newest stamp as the cursor, with no write between, starts such a run |
| Composite.Metadata.AddAll | datasource/types.go:299-301 | every entry of the other map, in whatever order it is walked, on top of the own |
| Composite.RuleRef.Clone | datasource/types.go:279-293 | a rule of the same value with conditions and upstreams of its own, none where there were none |
| Composite.Config.Clone | datasource/types.go:254-305 | a new object with the same contents whose metadata and whose rules' conditions and upstreams are all new, none where there was none |
| Composite.MergeConfig | datasource/composite/composite.go:398-441 | dst becomes the merge of both; nothing but dst and its own metadata map is written |
| Composite.MergeTexts | datasource/composite/composite.go:399-413 | each text field of src, unless empty |
| Composite.MergeSettings | datasource/composite/composite.go:414-440 | a positive lifetime, a set flag, rules appended, the higher version |
| Composite.MergeMetadata | datasource/composite/composite.go:427-435 | the union in which src wins, in the map of dst, made if there is none |
| Composite.GetMergeSequential | datasource/composite/composite.go:317-342 | the merge of the sources' configurations in order, in a new object with new metadata; no source configuration and no map of one is written |
| Composite.GetMergeParallel | datasource/composite/composite.go:344-395 | the same for every order of arrival |
| Composite.MergeInOrder | datasource/composite/composite.go:381-394 | the configurations that are there, merged in order into a new object with new metadata; none of them is written |
| Composite.GetPriority | datasource/composite/composite.go:444-467 | the configuration of the lowest-numbered source that has one |
| Composite.GetPriorityParallel | datasource/composite/composite.go:469-527 | for every order of arrival and every set of dropped results, that of the lowest-numbered source among those delivered |
| Composite.GetFailover | datasource/composite/composite.go:273-304 | that of the lowest-numbered healthy source that has one |
| Composite.ParallelAgreesIff | datasource/composite/composite.go:452-527 | parallel and sequential answer from the same source if and only if the result the sequential one uses was not dropped |
| Composite.LowestIsFirstAnswer | datasource/composite/composite.go:452-466 | the source picked is the first, of those counted, that answers with a configuration, and its answer is the result; nil if none does |
| Merging.CombineAssociative | datasource/composite/composite.go:398-441 | merging is associative, sources without a configuration included |
| Merging.MergeAllAppends | datasource/composite/composite.go:317-342 | merging two lists of sources one after the other is merging their merges |
| Merging.NestedMergesFlatten | datasource/composite/composite.go:317-342 | a merge of merges is one merge of all sources in order |
| Merging.OnlyPresentMatter | datasource/composite/composite.go:330-338 | only sources with a configuration matter, and there is a result exactly when there is one |
| Merging.MergedFields | datasource/composite/composite.go:399-425 | the last non-empty value of every text, the last set flag, the last positive lifetime, all rules in source order, the times of the first |
| Merging.MergedVersion | datasource/composite/composite.go:437-440 | the greatest version |
| Merging.MergedMetadata | datasource/composite/composite.go:427-435 | every key with the value of the last source that has it |
| Rewriting.OneMoreToken | extractor/extractor.go:72-75 | on text where the rules do not interfere, replacing one more token after a pass is the pass with that token |
| Rewriting.OrderDoesNotMatter | extractor/extractor.go:72-75 | there, every order of replacements gives the single left-to-right pass |
| Rewriting.AgainChangesNothing | extractor/extractor.go:72-75 | there, replacing again in any order changes nothing |
| Extractor.ShortcutsIndependent | extractor/extractor.go:60-70 | the nine shortcuts interfere on no text |
| Extractor.ExpandShortcuts | extractor/extractor.go:59-77 | for every map order the single left-to-right pass |
| Extractor.ExpansionIsIdempotent | extractor/extractor.go:57-77 | expanding twice is expanding once |
| Extractor.ShortcutsStandFor | extractor/extractor.go:60-70 | the full form of each of the nine shortcuts, whatever plain text follows |
| Extractor.PlaceholderEndIs | extractor/extractor.go:33-34 | the pattern matches from one position to another if and only if that is where the placeholder is taken to end |
| Extractor.ParseExpression | extractor/extractor.go:80-112 | a split: non-empty parts in place one after the other, placeholders exactly where the pattern matches leftmost, literals maximal |
| Extractor.SplitJoins | extractor/extractor.go:80-112 | the parts of a split put together are the text |
| Extractor.SplitIsUnique | extractor/extractor.go:80-112 | a text has only one split |
| Extractor.NewFromExpression | extractor/extractor.go:39-55 | none for the empty expression, otherwise the split of the expansion |
| Extractor.Extract | extractor/extractor.go:115-139 | the parts resolved and put together in order, or the empty key if any placeholder is missing or empty |
| Extractor.KeyAppends | extractor/extractor.go:120-138 | where all parts resolve, the key of some parts and then others is the one's key followed by the others' |
| Extractor.KeyOfOne | extractor/extractor.go:122-135 | a literal's key is its text, a placeholder's the value of the name inside its braces |
| Extractor.KeyReadsBack | extractor/extractor.go:80-138 | where every placeholder resolves to its own text the key is the expression |
| Extractor.NoKeyIffUnresolved | extractor/extractor.go:115-139 | for an extractor made from an expression the key is empty if and only if a placeholder is missing or empty |
| KeyTemplate.ReplacePlaceholders | gateway_jwt.go:514-517 | for all names and values, the placeholders replaced in some order of the variables |
| KeyTemplate.RenderKeyTemplate | gateway_jwt.go:510-522 | for all names and values and some order of the variables, an error if the template is blank or a brace is left, else the result |
| KeyTemplate.EveryOrderRendersTheSame | gateway_jwt.go:510-522 | with brace-free values and no nested braces every order gives the simultaneous substitution, and fails exactly for a blank template or a brace outside a known placeholder |
| KeyTemplate.EveryOrderSucceedsIff | gateway_jwt.go:510-522 | every order renders the simultaneous substitution if and only if the template is not blank, every brace in it belongs to a known placeholder, and the values of those are brace-free |
| KeyTemplate.CleanIffNoBraceLeft | gateway_jwt.go:518-520 | no brace is left by the substitution if and only if the template is clean in this sense |
| KeyTemplate.BracedValueDependsOnOrder | gateway_jwt.go:515-517 | for any two names a and b: if the value of a is "{b}", the template "{a}" renders the value of b in one order and fails in the other |
| Nesting.RenderIs | gateway_jwt.go:510-522 | with brace-free values, for every order of the map: the key that reading the template inside out gives, if the template is not blank, all its groups are complete and every name comes before those it is nested in; else an error |
| Nesting.SuccessesAgree | gateway_jwt.go:510-522 | with brace-free values any two orders that render a template render the same key |
| Nesting.SomeOrderSucceedsIff | gateway_jwt.go:510-522 | with brace-free values some order renders the template if and only if it is not blank, its groups are complete and names are not nested in a circle |
| Nesting.OrderIndependentIff | gateway_jwt.go:510-522 | with brace-free values all orders give the same outcome if and only if the template is blank, has an incomplete group, nests nothing, or nests names in a circle |
| Nesting.EachSucceedsIff | gateway_jwt.go:514-521 | what replacing some distinct names in order makes of a text is brace-free if and only if every group is complete, named, and after those nested in it |
| Parsing.AddressIsSimple | datasource/types.go:156-207 | text on one line that does not start as JSON and is a host and port, or not "name: value", is taken as an address |
| Parsing.HostPortIff | datasource/types.go:194-207 | text is host and port if and only if it has one colon and behind it digits between white space |
| Parsing.FormatIs | datasource/types.go:156-191 | text with a colon is YAML if and only if it has several lines, or a colon with a space and no scheme behind a proper name and no numeric port |
| Parsing.FormatWithoutColon | datasource/types.go:156-191 | text without a colon is YAML if it has several lines, else an address |
| Parsing.JsonBegins | datasource/types.go:161-164 | text is JSON if and only if it begins with a brace, a bracket or a quote |
| Parsing.ParseRouteConfigWithFormat | datasource/types.go:104-154 | nil for blank text, the address, a normalised document, or an error, by format and decoder |
| Parsing.PlainTextParses | datasource/types.go:105-136 | nil exactly for blank text; an address is a configuration of just that |
| Parsing.DocumentParses | datasource/types.go:124-154 | JSON goes to the JSON decoder, YAML to the YAML decoder, a JSON string is an address |
| Parsing.StructuredIs | datasource/types.go:138-154 | an error exactly for a document that does not decode or names neither upstream nor rules |
| Parsing.NormalFormKeepsRules | datasource/types.go:210-225 | the rules of a parsed document are its own with positive weights, and nothing else changes |
| Parsing.ParsedIsNormal | datasource/types.go:104-154 | every parsed configuration has rules in order and positive weights, and lacks both upstream and rules if and only if the text is an empty JSON string |
| Parsing.ParsedMatchHonoursPriority | matcher/matcher.go:127-170 | for every parsed configuration: its upstream if it has no rules, else a satisfied rule of the highest priority, and none exactly when no rule is satisfied |
| Priorities.SetDefaultWeights | datasource/types.go:219-223 | weights of 0 or less become 1, nothing else changes |
| Priorities.NormalizeConfig | datasource/types.go:210-225 | the same rules in order of priority, with positive weights, and nothing else changed |
| Priorities.PriorityHonouredIffOrdered | matcher/matcher.go:149-167 | taking the first matching rule takes one of the highest priority, whichever rules match, if and only if the rules are in order |
| Priorities.MergedRulesOrderedIff | datasource/composite/composite.go:422-425 | two ordered configurations merge into an ordered one if and only if the last priority of the first is at least the first of the second, or one has no rules |
| RuleMatcher.RuleMatcher.GetRegex | matcher/matcher.go:64-81 | whatever the bounded cache holds, what compiling gives |
| RuleMatcher.RuleMatcher.MatchRegex | matcher/matcher.go:230-237 | whether the pattern compiles and matches |
| RuleMatcher.RuleMatcher.MatchConditions | matcher/matcher.go:194-226 | in two passes, for every map order and cache, whether every condition holds |
| RuleMatcher.RuleMatcher.FindMatch | matcher/matcher.go:127-170 | the direct upstream if there are no rules, else the first rule whose conditions all hold, with its algorithm or the default |
| RuleMatcher.MatchHonoursPriority | matcher/matcher.go:149-169 | for rules in order, a satisfied rule of the highest priority, and none exactly when none is satisfied |
| RuleMatcher.MatchIs | matcher/matcher.go:127-170 | the direct upstream, or the first satisfied rule's upstreams, with the rule's algorithm or else the configuration's or else weighted random, and the rule's key or else the configuration's |
| RuleMatcher.ResolvesName | matcher/matcher.go:242-278 | the replacer first, then the method, host, path or header of the request; braces make no difference |
| RuleMatcher.MatchValueIs | matcher/matcher.go:282-299 | after a tilde a pattern that must compile and match; any other expectation must be equal |
| RuleMatcher.SatisfiedIs | matcher/matcher.go:194-226 | no conditions are satisfied, and one more must hold with the others |
| RuleMatcher.CacheKeyInjective | matcher/matcher.go:94-99 | algorithms without a colon share a selector only if algorithm and key are equal |
| RuleMatcher.CacheKeysApartIff | matcher/matcher.go:94-99 | two different algorithms share a selector under no keys if and only if neither, with its colon, begins the other with its own |
| RuleMatcher.CacheKeyCollision | matcher/matcher.go:94-99 | an algorithm with a colon can share another's |
| RuleMatcher.RuleMatcher.GetSelector | matcher/matcher.go:92-113 | the selector kept for the algorithm and key, in the state it had, or a fresh one, kept from now on |
| RuleMatcher.RuleMatcher.SelectFromUpstreams | matcher/matcher.go:174-190 | none, the only candidate, or what the selector of the algorithm and key chooses; no other selector changes |
| DynamicSelection.DynamicSelection.FindUpstreamInPool | plugin.go:404-414 | the upstream of that address in the pool the index was built from, which is this pool if the length changed |
| DynamicSelection.LastWins | plugin.go:408-410 | of several upstreams with one address the index has the last |
| DynamicSelection.DynamicSelection.Filter | plugin.go:296-310 | the candidates in the pool, and those of them that are available, in order |
| DynamicSelection.AvailableAppends | plugin.go:298-310 | available candidates keep their order and number |
| DynamicSelection.InPoolAppends | plugin.go:298-303 | and so do those in the pool |
| DynamicSelection.DynamicSelection.TryCandidates | plugin.go:296-326 | what follows a match: the exact miss reason, or a hit on what the selector chose of the available candidates |
| DynamicSelection.DynamicSelection.TryKey | plugin.go:260-327 | one attempt: the exact key and reason of every miss, which touches no selector, and a hit on the pool's entry for the candidate that the selector chose |
| DynamicSelection.LookUp | plugin.go:260-287 | the key and configuration, or which of the seven reasons to stop applies |
| DynamicSelection.CandidatesIff | plugin.go:260-316 | an attempt has candidates if and only if the key resolves, its configuration is there, enabled and unexpired, a rule matches, and one of its upstreams is in the pool and available |
| DynamicSelection.StopsBecause | plugin.go:260-294 | the key and the exact reason of every miss before matching: no extractor, no key, an error, unhealthy, no configuration, disabled, expired |
| DynamicSelection.MatchedLeads | plugin.go:290-316 | after matching: no match, not in the pool, none available, or the available candidates in order |
| DynamicSelection.DynamicSelection.ConsultsItsPoolIff | plugin.go:404-414 | a call consults its own pool if and only if the index is new, or was built from a pool of another length, or from this pool |
| DynamicSelection.DynamicSelection.ExchangedPoolIsMissed | plugin.go:404-414 | when every upstream of a pool was exchanged for another, a call with candidates is routed to one that is not in the pool |
| DynamicSelection.StaleIndexTakesTheWrongCandidate | plugin.go:404-414 | two pools of one upstream each, a and then b: of the candidates a and b the index takes a where the pool has b |
| DynamicSelection.DynamicSelection.SeparatedRunIsServed | plugin.go:296-326 | in a run whose pools differ in length and whose candidate lists differ in fingerprint, every call consults its own pool and no kept ring misleads it |
| DynamicSelection.DynamicSelection.AttemptAnswers | plugin.go:260-327 | an attempt whose kept ring, if it needs one, fits is a hit exactly when its plan has candidates, and then on an available pool member with the address the selector chose |
| DynamicSelection.DynamicSelection.InstanceComesFirst | plugin.go:330-359 | of two keys the instance's plan decides if it has candidates, else the version's if that has; else the miss is the version's if it has a key, and the instance's if not |
| DynamicSelection.DynamicSelection.AnswerPrefersInstance | plugin.go:330-359 | an answer carries the instance key whenever that leads to an available candidate in the pool, the version key only if the instance key leads nowhere, and the fallback policy answers exactly if both do |
| DynamicSelection.DynamicSelection.SelectByKey | plugin.go:362-375 | the candidate that the selector chose, or the fallback policy with the attempt's key and reason |
| DynamicSelection.DynamicSelection.SelectByInstanceOrVersion | plugin.go:330-360 | the instance key decides if it leads to candidates, else the version key, with what the selector for its rule chose; else the fallback policy with the last key there was and its reason |
| DynamicSelection.DynamicSelection.Select | plugin.go:217-376 | nil exactly for an empty pool; otherwise, unless a kept ring was built from another list, the upstream of the consulted pool, available, with the address that the selector of the matched rule's algorithm chose of the available candidates, its state moved on as that algorithm says, by instance key or else version key; and the fallback policy exactly when neither has an available candidate in the pool |

## Left out

- Clients and watch loops of etcd, Redis, Consul, Zookeeper, Kubernetes, HTTP and files, single flight, timeouts, retries: I/O and library behaviour.
- The poll loop's effect on health (datasource/sql/sql.go:467-479), provisioning, SQL text, placeholders and drivers.
- Clearing the SQL cache through the admin API, and a cache smaller than the table, are not events of a run; `SqlRuns.IncrementalMatchesFullIff` says what a refresh after them leaves wrong only for a cache with room.
- Concurrency below one call: the unsynchronised ring and pool index, and a poll between two steps of a lookup.
- The client's address from proxy headers (matcher/selector.go:313-339), header name spelling, and regular expressions.
- The fallback policy's own choice, metrics, events, logging, admin handlers and registries, the Caddyfile.
- The composite source's cache of results and its first-only strategy: easy members.
- JSON and YAML decoding; JWT verification, claims, mTLS and address checks.
- dynamic_upstreams.go: a cache and de-duplication, easier than the above.
- Nil and empty slices of rules are not told apart, and ring nodes sharing the caller's slice is not modelled. Conditions and upstreams of rules are shared objects that nothing writes once a configuration is parsed.
- Selector.UpstreamSelector.SelectConsistentHash: a ring's memory use is not bounded, though a great weight makes a great ring.
- Balance.LeastLoadedIsBest: that products fit suffices for one list; `Balance.LeastConnectionsExactIff` is exact for bounds on counts and weights.
- RingStability.RemovalMovesOnlyItsKeys: needs addresses not to collide on the ring, without which owners depend on how ties are sorted (`RingStability.UniqueIffNoCollision`).
- KeyTemplate.EveryOrderRendersTheSame: variable names are free of braces, as the four names the program uses are. One way only; `Nesting.RenderIs` is exact for brace-free values.
- Nesting.RenderIs: for values with braces only success in every order is characterised (`KeyTemplate.EveryOrderSucceedsIff`), not templates on which some or all orders fail.
- DynamicSelection.DynamicSelection.Select: says nothing of a plan whose kept ring was built from another list with the same fingerprint, except that the upstream is in the consulted pool.
