# Ferrous DNS: a verified model of its protocols, stores and codecs

This project models the parts of Ferrous DNS whose correctness depends on more than one line at a
time, and proves what they promise: two lock-free counters under every interleaving, the write
handlers of Pi-hole's domain lists over every run of requests and failed calls, the routing check
shared by the settings form and the backend, the schedule evaluator over every run of passes, and
the grouping, folding and encoding loops of the Pi-hole API and the web UI.

`dafny verify dfyconfig.toml` checks everything. One file holds one concern:

| file | models |
|---|---|
| CountedMap.dfy | `CountedDashMap`: the atomic steps of its operations, and its sequential use with eviction |
| DropCounter.dfy | `DropCounter::record`: its atomic steps, and its sequential use |
| DomainTables, DomainRequests, DomainDeletes, DomainAdds, DomainStore | the four domain lists in two tables, and POST, PUT and DELETE on them |
| PoolCleaning, Claims, Routing, RoutingForm, RoutingMirror, RoutingNames | the settings form's upstream pools: cleaning, saving, the routing check, and the backend's check |
| Schedule.dfy | the schedule evaluator job and the override store it writes |
| Devices.dfy | clients gathered into devices |
| QuerySelection.dfy | the category filters of `/queries` |
| Upstreams, UpstreamCredits, Summary | upstream servers merged across pools, and when the log's answers reach the right one; the summary's counts per status |
| ClientHistory.dfy | `/history/clients` |
| Base64Url.dfy, DnsNames.dfy | the WebAuthn base64url helpers; uncompressed DNS names |
| Options, Sums, Ascii, MachineWords, Sorting | shared helpers |

A property of every run is an invariant that every step keeps. `DomainStore` records the history of
all states its tables have been in, one row change at a time. Each handler works from any tables and
extends that history, whichever of its calls fail, without a state in which a list holds an item more
often than before, unless it holds it once (`NoRepeatSince`). So once no list holds an item twice,
none does again at any instant of any sequence of requests (`ListsStaySound`).

What a handler or a step does is also told from its inputs alone, apart from the functions that
compute it: a PUT by its path, body and rows (`UpdateDone`), a schedule pass by slots, bits and times
(`GroupSettled`), a routed domain by its characters (`SharedKeyExactly`, `AcceptedExactly`), a map's
entries by the last step to land on them (`EntryIsLastTouch`), a count by the calls begun
(`TotalCountsCalls`).

Calls whose result the code cannot decide (repository failures, what a map iterates over first,
the backend's answer, converters for names that are not ASCII) are parameters or nondeterministic
choices. The clock is always passed in. Atomic operations marked `Relaxed` are single steps of an
interleaving.

## Where the code keeps less than it says

The model follows the code. For each of these, one lemma shows a case in which the promise fails
and another states exactly when it holds.

- "At most one report per clock second" (drop_counter.rs:13-14) fails when calls overlap:
  `OverlapCanReportASecondTwice` reports second 11 twice. Call a call orderly when it begins in clock
  order and while no call of another second has yet to load the last reported second. After orderly
  calls, `ThrottleExactly` says of one more call in clock order: every continuation whose own calls
  are orderly reports each second at most once, if and only if that call is orderly too. Callers whose
  calls of different seconds never overlap keep the promise (`SerialSecondsAreThrottled`). In any
  reachable state whose counter is not at second b and that has a second idle thread, a call begun at
  b while one of another second has yet to load can be followed by two more reports of b
  (`OvertakingReportsTwice`).
- "Exact domains are lowercased" (domains.rs:113-114) fails for one kind of PUT: to a regex list,
  with a body that names an exact list the item is missing from. `UppercaseCanBeStored` is such a
  request, and `PutLoweredExactly` shows there is no other.
- A PUT that moves an item to another list leaves the old list without it exactly when that list held
  it once (`ReplacedMovesOneItem`). Blocking a service for two groups puts each of its domains in the
  exact deny list twice (block_service.rs:55-66, managed_domain_repository.rs:226-268); moved to the
  allow list by a PUT that succeeds, such a domain is still denied (`MovedRuleStaysDenied`).
- The listing of upstream servers gives every server exactly its answers over all pools if and only if
  no answering pool has a colon in its name and no two rows of the log show the same pool and server
  (`ListingCreditsExactly`). Pool names are checked for neither a colon nor the name "unknown", which
  stands for a pool that was not recorded. A pool named "a:b" that alone answered, from "s", is listed
  as the server "b:s" (`PoolNamedWithColon`).

## What callers guarantee

Four results rest on something that is settled elsewhere in the code; each is stated over what can
arrive, beside the exact condition.

- Every logged query starts from one record and only a refusal marks it blocked
  (handle_dns_query.rs:364-394), so none is both blocked and a cache hit, and any sequence of
  categories selects exactly the intersection (`LoggedRowsIntersect`; `IntersectionExactly`).
- Clients are logged by IP address (query_log.rs:337), so none is called "others" and the history
  shows every query once (`AddressHistoryConserves`; `HistoryConservesExactly`).
- A running configuration has no pool without servers and no blank server (root.rs:94-101,
  load_balancer/pool.rs:351-357), so an unedited save sends no pools (`UneditedSaveIsUnchanged`;
  `CleanIsUnchangedExactly`).
- The caches bound themselves by a constant of 50 000 or by `cache_max_entries`, which may not be
  zero (root.rs:110-116), so a run of evictions and inserts stays within the bound
  (`RunStaysBounded`; `ZeroBoundBreaks`).

## Model

| member | source | states |
|---|---|---|
| CountedMapProtocol.StepKeepsAccount | crates/infrastructure/src/counted_map.rs:64-108 | every atomic step of every operation keeps: count = true size + uncommitted credits, modulo the counter's width (what each step leaves in the map is EntryIsLastTouch) |
| CountedMapProtocol.RunKeepsAccount | crates/infrastructure/src/counted_map.rs:38-113 | that account holds after any interleaving of any number of threads, from any initial map; what the map then holds is EntryIsLastTouch |
| CountedMapProtocol.CountNeverBelowSize | crates/infrastructure/src/counted_map.rs:10-15 | at every instant the count is never below the true size of the map whose entries EntryIsLastTouch gives, an empty count means an empty map, no pending subtraction can underflow, and the count is exact when no operation is in flight |
| CountedMapProtocol.EntryIsLastTouch | crates/infrastructure/src/counted_map.rs:64-108 | in every interleaving a key holds what the last insert, removal or visit to land on it left there; no other step changes it |
| CountedMapProtocol.InsertLands | crates/infrastructure/src/counted_map.rs:64-72 | whatever other threads do between an insert's fetch_add and its map write, the write stores the key and value of the call and changes no other entry |
| CountedMapProtocol.InsertAlone | crates/infrastructure/src/counted_map.rs:64-72 | the steps of one insert, undisturbed, store the entry and add one to the count exactly when the key is new |
| CountedMapProtocol.RemoveAlone | crates/infrastructure/src/counted_map.rs:74-84 | the steps of one removal drop the entry and take one off the count exactly when there was one |
| CountedMapProtocol.RemoveIfAlone | crates/infrastructure/src/counted_map.rs:86-96 | the steps of one conditional removal do the same exactly when the closure accepts the entry |
| CountedMapProtocol.RetainAlone | crates/infrastructure/src/counted_map.rs:98-108 | the steps of one retain, in whatever order it visits, leave each entry as the closure answered and take the number of dropped ones off the count |
| CountedMapProtocol.CounterWraps | crates/infrastructure/src/counted_map.rs:66-106 | the counter adds and subtracts exactly, wrapping only where the result does not fit |
| CountedMap.CountedMap.FromMap | crates/infrastructure/src/counted_map.rs:38-43 | a map taken over starts with an exact count |
| CountedMap.CountedMap.Insert | crates/infrastructure/src/counted_map.rs:64-72 | adds or replaces one entry, returns the one replaced, and keeps the count exact either way |
| CountedMap.CountedMap.RemoveIf | crates/infrastructure/src/counted_map.rs:86-96 | removes the entry exactly when it is present and accepted, and counts exactly that removal |
| CountedMap.CountedMap.Remove | crates/infrastructure/src/counted_map.rs:74-84 | removes the entry if present, returns it, keeps the count exact |
| CountedMap.CountedMap.Retain | crates/infrastructure/src/counted_map.rs:98-108 | keeps exactly the accepted entries with the values the closure left, returns how many went |
| CountedMap.CountedMap.Clear | crates/infrastructure/src/counted_map.rs:110-113 | leaves an empty map and a zero count |
| CountedMap.CountedMap.EvictIfFull | crates/infrastructure/src/counted_map.rs:115-145 | nothing below max; otherwise the expired entries of a sample of at most BATCH go, and exactly one more when the map is still full |
| CountedMap.EvictionMakesRoom | crates/infrastructure/src/counted_map.rs:115-145 | from at most max entries there is room for an insert afterwards; at most BATCH+1 entries go; a live one goes only alone, from a full map whose sample held nothing expired |
| CountedMap.RunStaysBounded | crates/infrastructure/src/counted_map.rs:115-145 | any run of evict-then-insert keeps at most max entries, for every bound a cache can pass |
| CountedMap.ZeroBoundBreaks | crates/infrastructure/src/counted_map.rs:115-145 | with max zero the first insert already exceeds the bound |
| DropCounterProtocol.StepKeepsReports | crates/application/src/drop_counter.rs:34-51 | each atomic step keeps the reports an unbroken chain within the total, which TotalCountsCalls gives |
| DropCounterProtocol.TotalCountsCalls | crates/application/src/drop_counter.rs:35 | in every interleaving the total is the number of calls begun |
| DropCounterProtocol.CallTakesAtMostFourSteps | crates/application/src/drop_counter.rs:34-51 | however other threads interleave, a call still running has taken three of its own steps at most and can take the next |
| DropCounterProtocol.LosingCallChangesNothing | crates/application/src/drop_counter.rs:37-44 | a call that loses the exchange ends and leaves total, reported total, second, reports and writes as they were |
| DropCounterProtocol.PublishReportsOwnCall | crates/application/src/drop_counter.rs:45-51 | in every interleaving a call that won reports exactly when no later call has reported, with its own second and its own number among all calls begun |
| DropCounterProtocol.ReportsPartitionDrops | crates/application/src/drop_counter.rs:34-51 | in every interleaving the reports cover disjoint consecutive ranges of the drops, their sizes sum to the reported total, and that never exceeds the number of calls begun |
| DropCounterProtocol.ThrottleHoldsWhileSecondsRise | crates/application/src/drop_counter.rs:13-14 | no second is reported more often than written, consecutive writes differ, and if written seconds never decrease each is reported at most once |
| DropCounterProtocol.OverlapCanReportASecondTwice | crates/application/src/drop_counter.rs:13-14 | the documented bound fails: three overlapping calls that begin in clock order report one second twice |
| DropCounterProtocol.OrderlyCallsAreThrottled | crates/application/src/drop_counter.rs:32-51 | over every run of calls that begin in clock order, none while a call of another second has yet to load, each second is reported at most once |
| DropCounterProtocol.SerialSecondsAreThrottled | crates/application/src/drop_counter.rs:13-14 | the documented bound holds over every run in which calls begin in clock order and calls of different seconds never overlap |
| DropCounterProtocol.OvertakingReportsTwice | crates/application/src/drop_counter.rs:34-51 | in any reachable state whose counter is not at second b and that has a second idle thread, a call begun at b while one of another second has yet to load can be followed by two more reports of b |
| DropCounterProtocol.ThrottleExactly | crates/application/src/drop_counter.rs:34-51 | after orderly calls, one more call in clock order leaves every second reported at most once, in every continuation whose own calls are orderly, if and only if no call of another second has yet to load when it begins |
| DropCounter.DropCounter.Record | crates/application/src/drop_counter.rs:32-51 | the sequential call: its report and its new counters |
| DropCounter.SequentialCallRefinesSteps | crates/application/src/drop_counter.rs:34-51 | a call whose four atomic steps run undisturbed has exactly the sequential effect and report |
| DropCounter.SequentialReports | crates/application/src/drop_counter.rs:36-50 | whatever the clock does, sequential calls report exactly at each change of second, with every drop since the previous report |
| DropCounter.OneReportPerSecond | crates/application/src/drop_counter.rs:13-21 | with a clock that never goes back nor reads zero, reports fall exactly on the first drop of each distinct second |
| DomainTables.CreateAddsNoRepeatExactly | crates/api-pihole/src/handlers/domains.rs:264-287 | from any tables, creating an entry repeats no item exactly when its list did not hold it |
| DomainTables.CreateKeepsListsExactly | crates/api-pihole/src/handlers/domains.rs:264-287 | and keeps lists without repeats that way exactly then |
| DomainTables.UpdateAddsNoRepeat | crates/api-pihole/src/handlers/domains.rs:361-393 | from any tables, rewriting a row into another list of its table repeats no item when the item is not there yet |
| DomainTables.NoDuplicatesExactly | crates/api-pihole/src/handlers/domains.rs:253-262 | that no list holds an item twice means that no two rows of one table share an action and an item |
| DomainRequests.PathNamesExactly | crates/api-pihole/src/handlers/domains.rs:35-52 | a path names a list exactly by the words allow or deny, then exact or regex |
| DomainRequests.PreviousExactly | crates/api-pihole/src/handlers/domains.rs:323-337 | the list a PUT takes its entry from: the addressed one when type and kind are absent or empty, the one they spell in any case, and a client error otherwise |
| DomainRequests.DescribesExactly | crates/api-pihole/src/crud.rs:43-78 | the entry a request writes: no comment when absent or empty, enabled unless told otherwise, the first group with FTL's 0 as 1, or the one it had |
| DomainRequests.PrepareExactly | crates/api-pihole/src/handlers/domains.rs:115-139 | an item is written as it is to a regex list and in lower case to an exact one, unless it has a line break, or for an exact list a blank or bad syntax |
| DomainRequests.PrepareItemsExactly | crates/api-pihole/src/crud.rs:139-150 | a POST writes every item prepared, or nothing when there is none, one is empty or one cannot be prepared |
| DomainRequests.RecordExactly | crates/api-pihole/src/crud.rs:171-193 | exactly a server error ends the request; any other outcome files the item as a success or an error |
| DomainStore.RewriteReplaces | crates/api-pihole/src/handlers/domains.rs:361-393 | the in-place update takes out the old entry and puts in the new one, and nothing else changes in either table |
| DomainStore.MoveReplaces | crates/api-pihole/src/handlers/domains.rs:394-400 | create-then-delete between the tables has the same visible effect as the update in place |
| DomainStore.ReplacedMovesOneItem | crates/api-pihole/src/handlers/domains.rs:339-402 | after that effect the item is in the target list, every other list and item is as before, and a different previous list is rid of the item exactly when it held it once |
| DomainStore.MovedRuleStaysDenied | crates/api-pihole/src/handlers/domains.rs:361-377 | a service's rule blocked for two groups and moved to the allow list by a successful PUT is still in the deny list |
| DomainStore.ListsStaySound | crates/api-pihole/src/handlers/domains.rs:303-548 | once no list holds an item twice, none does in any later state of any sequence of requests |
| DomainStore.MoveNeverLoses | crates/api-pihole/src/handlers/domains.rs:394-400 | between and after the create and the delete the moved item is held by the target list |
| DomainStore.DomainStore.ReplaceEntry | crates/api-pihole/src/handlers/domains.rs:320-402 | a PUT's exact outcome from any tables, whatever calls fail, both as the handler reads the body and, row by row, told from the body's fields alone; no list changes but the two named; no state repeats an item anew; an item it finds is in its old or its new list in every new state |
| DomainStore.PutIsDone | crates/api-pihole/src/handlers/domains.rs:342-402 | the write of a PUT, row by row: a missing item gets one new row in the list the body names; the first row of a found one is rewritten, or carried to the other table, with the described entry and its old group unless one is named |
| DomainStore.PutKeepsOthers | crates/api-pihole/src/handlers/domains.rs:342-402 | a PUT changes no list but the one it addresses and the one its entry was in |
| DomainStore.PutLeavesItem | crates/api-pihole/src/handlers/domains.rs:342-402 | a PUT that succeeds leaves the item in the addressed list, or in the named one when that did not hold it |
| DomainStore.PutStaysInItsList | crates/api-pihole/src/handlers/domains.rs:320-337 | without type and kind a PUT changes only its own list and, when it succeeds, leaves the item there |
| DomainStore.DomainStore.MoveEntry | crates/api-pihole/src/handlers/domains.rs:394-400 | a move between tables ends replaced, untouched, or (when only the delete failed) in both lists, and every state it passes through holds the item |
| DomainStore.DomainStore.UpdateDomain | crates/api-pihole/src/handlers/domains.rs:574-589 | the PUT request, told from its path, body and item alone: which rows are created, rewritten or carried over and with which group, comment and flag, that no other list changes, and that nothing is written when path, body or item is not in order; a found item is never lost, failures map to the right reply, and exact entries stay lowercase unless the one unprepared create happens |
| DomainStore.PutLoweredExactly | crates/api-pihole/src/handlers/domains.rs:113-139 | a PUT leaves every exact entry lowercase unless it creates a missing item with a capital in an exact list named by the body while the path names a regex list |
| DomainStore.UppercaseCanBeStored | crates/api-pihole/src/handlers/domains.rs:353-356 | a concrete PUT that stores an exact entry with a capital |
| DomainAdds.RepeatsFail | crates/api-pihole/src/handlers/domains.rs:532-548 | in a batch add, an item already stored or added earlier is never written again |
| DomainAdds.FiledOnce | crates/api-pihole/src/crud.rs:168-192 | successes and errors together are exactly the items of the request |
| DomainAdds.AddAllAppends | crates/api-pihole/src/handlers/domains.rs:538-548 | the written items are exactly the new rows, appended in order with fresh ids, and the other table is untouched |
| DomainAdds.AddAllItems | crates/api-pihole/src/handlers/domains.rs:532-546 | the list then holds exactly its former items and the written ones |
| DomainStore.DomainStore.AddItems | crates/api-pihole/src/handlers/domains.rs:532-548 | the add loop: its set of present items stays the list's items, each item is filed in order, a server error stops it with the earlier rows kept, and no state repeats an item anew |
| DomainStore.DomainStore.CreateDomain | crates/api-pihole/src/handlers/domains.rs:515-554 | the POST request: a path that names no list or a bad item writes nothing; the reply is a database error exactly when every item was tried and failed; exact entries stay lowercase |
| DomainDeletes.DeletesExactlyTheTargets | crates/api-pihole/src/handlers/domains.rs:302-318 | a finished batch delete leaves exactly the rows no target names, in their order |
| DomainDeletes.TargetsAreGone | crates/api-pihole/src/handlers/domains.rs:303-318 | a batch delete that got through leaves exactly the rows whose item and list no target has, in the order of their ids |
| DomainDeletes.DeleteStep | crates/api-pihole/src/handlers/domains.rs:309-316 | every targeted entry of the snapshot is still there when the loop reaches it, and its delete removes one row |
| DomainStore.DomainStore.DeleteEntries | crates/api-pihole/src/handlers/domains.rs:302-318 | a failure leaves exactly the earlier targets deleted; success deletes all of them and returns how many rows went |
| PoolCleaning.TrimExactly | web/static/settings.js:416 | trimming is idempotent and changes exactly the texts with white space at an end |
| PoolCleaning.TrimDropsOnlySpace | web/static/settings.js:415 | trimming takes away nothing but white space at the two ends |
| PoolCleaning.OnlyBlanksRemoved | web/static/settings.js:408-415 | exactly the lines that are not blank remain, trimmed and in order |
| PoolCleaning.CleanKeepsThePool | web/static/settings.js:412-421 | a cleaned pool has all its servers and domains in order and, when it has domains, exactly its group ids in ascending order and its internal flag |
| PoolCleaning.CleanKeepsMeaning | web/static/settings.js:401-421 | cleaning a pool keeps everything the backend consumes: its normal form, every server and domain, and every group id it is routed for |
| PoolCleaning.CleanIsIdempotent | web/static/settings.js:414-421 | cleaning a clean pool changes nothing |
| PoolCleaning.CleanPoolsIsIdempotent | web/static/settings.js:689-691 | cleaning the whole form is idempotent |
| PoolCleaning.CleanPoolsEach | web/static/settings.js:689-691 | each pool is kept, cleaned, or dropped for itself: dropped exactly when all its servers are blank |
| PoolCleaning.ComparesEqualExactly | web/static/settings.js:401-411 | two forms compare equal exactly when no pool differs in name, strategy, priority, servers, domains or, with domains, groups and internal flag |
| PoolCleaning.CleanIsUnchangedExactly | web/static/settings.js:689-699 | cleaning loaded pools reads as unchanged exactly when every pool has a server |
| PoolCleaning.UneditedSaveIsUnchanged | web/static/settings.js:686-705 | pools loaded from a running configuration and saved unedited read as unchanged |
| PoolCleaning.SettingsForm.SaveConfig | web/static/settings.js:686-749 | a save is rejected exactly when a check fails, edited pools being checked only when they differ from the last baseline, and then they alone are sent; a successful save leaves a form whose next unedited save sends none, and any other save leaves pools and baseline alone |
| Claims.ClaimAllExactly | web/static/settings.js:500-510 | what one pool's accepted claims leave for each entry of the table |
| Claims.ConflictIsReal | web/static/settings.js:503-508 | a conflict names a claim of the pool that another pool held before it |
| Claims.RepeatsClaimNothing | web/static/settings.js:501 | claiming each distinct domain gives the same table or error as claiming every occurrence |
| Claims.KeyInjective | web/static/settings.js:503 | the textual key tells (domain, scope) pairs apart for domains without NUL |
| Routing.AcceptedHasNoNul | web/static/settings.js:455-487 | every accepted domain has a key without NUL |
| Routing.ClaimsExactly | web/static/settings.js:494-510 | a pool claims exactly its domains' keys, for each of its groups or else for every client |
| Routing.TableExactly | web/static/settings.js:493-512 | the table holds exactly the claims made, each with the one pool name that made it |
| Routing.FirstErrorDecides | web/static/settings.js:488-514 | the one pass accepts exactly when every domain is valid, some pool (of any) has no domains, and no two differently named pools claim the same domain and scope; what is valid and the same is RoutingNames |
| Routing.FirstErrorIsReal | web/static/settings.js:488-514 | the error is that no pool is left for other names, or a fault of the first pool that has one: its first refused domain with the reason, or a claim an earlier pool of another name holds |
| RoutingNames.SharedKeyExactly | web/static/settings.js:481-487 | one dot at either end of an ASCII domain does not matter; two domains without them share a key exactly when they are equal ignoring case |
| RoutingNames.BlanksDoNotMatter | web/static/settings.js:482 | blanks around an ASCII domain do not change its key |
| RoutingNames.AcceptedExactly | web/static/settings.js:456-479 | an ASCII domain is accepted exactly when its key has 1 to 253 letters, digits, '_', '-' and dots, no dot at an end or beside another, and no 64 characters in a row without a dot; a refusal names a fault the key has |
| RoutingNames.BackendStoresGoodNames | crates/domain/src/config/upstream.rs:73-88 | the backend stores that key exactly for those names, and refuses the others |
| RoutingForm.FirstRoutingError | web/static/settings.js:488-514 | the nested loops over one text-keyed map return that first error, and none exactly when the quadratic specification over RoutingNames' keys holds |
| RoutingMirror.SameDomainVerdict | crates/domain/src/config/upstream.rs:70-88 | an ASCII domain gets the same key or the same refusal from form and backend; which key and which verdict are SharedKeyExactly and AcceptedExactly |
| RoutingMirror.FormMirrorsBackend | crates/domain/src/config/upstream.rs:90-157 | for ASCII domains and group ids that are positive 32-bit numbers, form and backend give the same verdict, error included; FirstErrorIsReal says what the error tells |
| RoutingMirror.BackendAcceptsExactly | crates/domain/src/config/upstream.rs:90-157 | the backend accepts exactly the cleaned pools the form accepts (FirstErrorDecides) and whose every group id is a positive 32-bit number |
| RoutingMirror.RoutingNeedsDomains | crates/domain/src/config/upstream.rs:105-121 | the backend refuses any configuration with a pool that names groups or is internal without domains, with the error that says so when it is the first fault |
| RoutingMirror.OddGroupIsRefused | crates/domain/src/config/upstream.rs:124-133 | a pool with domains and a group that is no positive 32-bit number is refused, naming the first such group when it is the first fault |
| Schedule.EvaluateSlots | crates/domain/src/entities/schedule.rs:119-141 | blocks exactly when some slot with the weekday's bit and start <= time < end blocks, allows exactly when none does and some such slot allows, in any order |
| Schedule.ScheduleEvaluatorJob.EvaluateOnce | crates/jobs/src/schedule_evaluator.rs:45-105 | one pass, for every combination of repository failures; with one assignment per group every group ends as its load says (GroupSettled, over slots, bits and times) |
| Schedule.PassSettlesEveryGroup | crates/jobs/src/schedule_evaluator.rs:45-105 | after a pass a group whose slots loaded has exactly what they call for, a missing profile or a dropped assignment leaves none, a failed load keeps what had not run out, and no other group changes |
| Schedule.EventStaysTracked | crates/jobs/src/schedule_evaluator.rs:45-105 | no pass and no outside write leaves an override of the job on a group it does not track |
| Schedule.NoOverrideIsOrphaned | crates/jobs/src/schedule_evaluator.rs:45-105 | over every run the job tracks exactly the last loaded groups and every override it wrote belongs to one of them |
| Devices.LastQueryIsLatest | crates/api-pihole/src/devices.rs:19-26 | a device's last query is the latest of its clients' |
| Devices.GroupDevices | crates/api-pihole/src/devices.rs:29-50 | every address that occurs gets one device with exactly its rows in input order, most recently active first, ties in first-occurrence order |
| Devices.ShareExactlyByAddress | crates/api-pihole/src/devices.rs:33-46 | two clients share a device exactly when they have the same hardware address |
| Devices.ShareExactly | crates/api-pihole/src/devices.rs:33-46 | two clients share a device exactly when their MACs are equal ignoring case or, without MACs, their IP addresses are equal |
| Devices.NamedByItsClients | crates/api-pihole/src/devices.rs:33-37 | a device is named by its clients' MAC in lower case, or by "ip-" and the address |
| Devices.ListedByActivity | crates/api-pihole/src/devices.rs:48 | of two devices the earlier listed was seen later, or neither was and its first client comes first |
| Devices.AddressesAreDistinct | crates/api-pihole/src/devices.rs:38-44 | no address has two devices, and no client is in two |
| Devices.GroupingIsUnique | crates/api-pihole/src/devices.rs:29-50 | only one answer satisfies the promise |
| QuerySelection.Selection.SelectStatus | crates/api-pihole/src/handlers/queries.rs:142-155 | a status is accepted exactly when it spells an FTL status in any case, and then narrows by its category |
| QuerySelection.Selection.SelectUpstream | crates/api-pihole/src/handlers/queries.rs:201-229 | the first word of `upstream` narrows to a category, to the busiest server at an address, or to a server URL; an address nothing answered from selects no rows |
| QuerySelection.StatusSelects | crates/api-pihole/src/handlers/queries.rs:142-155 | which logged queries each status selects: refusals for the blocked ones, upstream answers for FORWARDED, cache hits for CACHE, none for the others |
| QuerySelection.UpstreamSelects | crates/api-pihole/src/handlers/queries.rs:201-229 | which logged queries each first word of `upstream` selects |
| QuerySelection.FirstWordExactly | crates/api-pihole/src/handlers/queries.rs:211 | the first word ends at the first blank |
| QuerySelection.CaseIgnored | crates/api-pihole/src/handlers/queries.rs:122-135 | a status is compared letter by letter ignoring case |
| QuerySelection.MembersDecide | crates/api-pihole/src/handlers/queries.rs:105-119 | a sequence of restrictions ends in a state only its members decide: empty exactly on a conflict, else the narrowest |
| QuerySelection.OrderDoesNotMatter | crates/api-pihole/src/handlers/queries.rs:105-119 | order and repeats of restrictions never change the selected rows |
| QuerySelection.LoggedRowsIntersect | crates/api-pihole/src/handlers/queries.rs:105-119 | of the queries that can be logged, any sequence of restrictions selects exactly those in every category asked for |
| QuerySelection.IntersectionExactly | crates/infrastructure/src/repositories/query_log_repository/reader.rs:191-198 | the selection is the intersection of the categories' rows exactly for rows not both blocked and cache hits |
| QuerySelection.LoggedRowsMeetBothFilters | crates/api-pihole/src/handlers/queries.rs:142-229 | `status` and `upstream` together select exactly the logged queries of both |
| QuerySelection.StatusAndUpstreamIntersect | crates/api-pihole/src/handlers/queries.rs:142-229 | the same for every row not both blocked and a cache hit |
| Upstreams.KeyReadsBackExactly | crates/api-pihole/src/handlers/stats.rs:552-556 | pool and server are read back from their key exactly when the pool's name has no colon |
| UpstreamCredits.ListingCreditsExactly | crates/api-pihole/src/handlers/stats.rs:547-560 | every server that answered, and no other, is listed with exactly its answers over all pools if and only if no answering pool has a colon in its name and no two rows of the log show the same pool and server |
| UpstreamCredits.FallsShort | crates/infrastructure/src/repositories/query_log_repository/reader.rs:530-548 | a server no misread row is credited to never gets more than its answers, and gets fewer once one of its rows is misread or overwritten |
| UpstreamCredits.ReadServer | crates/api-pihole/src/handlers/stats.rs:552-556 | a row is read as its own server, or, when its pool has a colon, as a longer name |
| UpstreamCredits.KeyText | crates/infrastructure/src/repositories/query_log_repository/reader.rs:530-548 | a row is recorded under its pool, a colon and its server, each "unknown" when empty |
| Upstreams.ColonListsAPhantom | crates/api-pihole/src/handlers/stats.rs:549-560 | a pool whose name has a colon, when it alone answered, puts a server that does not exist in the listing and leaves the real one out |
| Upstreams.PoolNamedWithColon | crates/api-pihole/src/handlers/stats.rs:549-560 | a pool named "a:b" that alone answered, from "s", is listed as the one server "b:s" |
| Upstreams.UpstreamServers | crates/api-pihole/src/handlers/stats.rs:547-560 | each server that answered once, with its queries over all pools, in listing order; the counts sum to the forwarded queries |
| Upstreams.ListedInOrder | crates/api-pihole/src/handlers/stats.rs:557-560 | servers are listed by falling count, equal ones in dictionary order of their names |
| Upstreams.ListingIsUnique | crates/api-pihole/src/handlers/stats.rs:557-560 | the listing does not depend on the order hash maps are walked in |
| Summary.CountStatuses | crates/api-pihole/src/handlers/stats.rs:182-191 | each status counts exactly the answers of its sources, and all statuses together count every answer once |
| Summary.CountsBySource | crates/api-pihole/src/handlers/stats.rs:182-191 | each counter by the names of its sources: regex_filter, managed_domain, cname_cloaking, cache with local_dns, keys with a colon, and everything else under GRAVITY |
| Summary.SummaryAgrees | crates/api-pihole/src/handlers/stats.rs:172-191 | FORWARDED equals `forwarded`, CACHE equals `cached`, UNKNOWN stays zero, and the counts sum to all answers |
| ClientHistory.BucketsCoverTheWindow | crates/api-pihole/src/handlers/stats.rs:228-238 | every moment of the window, now included, belongs to one of the 145 buckets, and no moment outside does |
| ClientHistory.HistoryAt | crates/api-pihole/src/handlers/stats.rs:228-243 | bucket i of 145 starts at the running ten minutes less a day plus i times 600 seconds, is stamped 300 seconds later, and shows exactly the named clients and "others" |
| ClientHistory.RankClients | crates/api-pihole/src/handlers/history.rs:48-65 | clients are folded exactly when more than N exist, and then N-1 keep a series |
| ClientHistory.BucketData | crates/api-pihole/src/handlers/history.rs:84-98 | one bucket shows each named client's queries and the rest under "others" |
| ClientHistory.GetHistoryClients | crates/api-pihole/src/handlers/history.rs:44-123 | the whole reply: which clients are named, what every bucket shows, the series with their totals; at most N series, "others" included |
| ClientHistory.OthersTotalIsShown | crates/api-pihole/src/handlers/history.rs:81-97 | the total reported for "others" is the sum of what the buckets show under it |
| ClientHistory.RankedOnceKeepsItsSeries | crates/api-pihole/src/handlers/history.rs:104-110 | a client ranked once keeps its total and its name, none when that is empty |
| ClientHistory.FoldedAreShown | crates/api-pihole/src/handlers/history.rs:112-120 | folded clients have one series named "other clients" under "others", with their total |
| ClientHistory.BucketConserves | crates/api-pihole/src/handlers/history.rs:74-103 | a bucket's values add up to its queries, but for those of a named client called "others" |
| ClientHistory.HistoryConservesExactly | crates/api-pihole/src/handlers/history.rs:74-103 | over the 145 buckets every query is shown exactly once if and only if no named client called "others" has any |
| ClientHistory.AddressBucketsConserve | crates/api-pihole/src/handlers/history.rs:74-103 | with clients logged by IP address, a bucket's values add up to its queries |
| ClientHistory.AddressHistoryConserves | crates/api-pihole/src/handlers/history.rs:74-103 | with clients logged by IP address, the 145 buckets show every query of the window exactly once |
| Base64Url.BufToB64url | web/static/shared.js:267-272 | the loop and the replacements produce the text of the bytes |
| Base64Url.B64urlToBuf | web/static/shared.js:258-265 | the loop fills a buffer with the bytes of the text, or the text is refused |
| Base64Url.TextIsUrlSafeDigits | web/static/shared.js:271 | the text is the digits in the URL-safe alphabet with all padding gone |
| Base64Url.SextetsSpellBytes | web/static/shared.js:267-271 | four digits spell the 24-bit number of three bytes; a byte or two left over are followed by zero bits |
| Base64Url.TextDigit | web/static/shared.js:271 | each digit of the text by its value: A to Z, a to z, 0 to 9, then - and _ |
| Base64Url.RepaddingIsRemoved | web/static/shared.js:259-261 | the padding put back is exactly what the decoder takes off |
| Base64Url.RoundTrip | web/static/shared.js:258-272 | every byte sequence survives encoding and decoding |
| Base64Url.TextRoundTripExactly | web/static/shared.js:258-272 | a text survives decoding and encoding exactly when it is canonical |
| DnsNames.NameWire | fuzz/seeds.py:23-27 | the encoder produces the wire form, or fails exactly when a length does not fit a byte |
| DnsNames.WireIsLabels | fuzz/seeds.py:23-27 | the wire form is each label behind its length, then a zero |
| DnsNames.UncompressedNameLen | fuzz/fuzz_targets/upstream_relay.rs:77-87 | the walk terminates and measures the name, none when a label overruns the buffer |
| DnsNames.EncodedIsMeasured | fuzz/fuzz_targets/upstream_relay.rs:77-87 | an encoded name measures to its own length whatever bytes follow |
| DnsNames.MeasuredIsEncoded | fuzz/fuzz_targets/upstream_relay.rs:77-87 | every measured prefix is the encoding of some name |
| DnsNames.WireIsPrefixCode | fuzz/seeds.py:23-27 | bytes that open with an encoded name open with only one |
| DnsNames.MeasureExactly | fuzz/fuzz_targets/upstream_relay.rs:77-87 | the walk answers n exactly when the first n bytes encode a name, and then they encode only one |
| DnsNames.TruncatedIsNone | fuzz/fuzz_targets/upstream_relay.rs:77-87 | a name cut anywhere before its root label measures to nothing |

## Left out

- CountedMapProtocol.CountNeverBelowSize: asks that entries and in-flight operations fit the counter's 64 bits; RunKeepsAccount has no such bound and states the same account modulo the width.
- DropCounterProtocol.ReportsPartitionDrops: counts drops as unbounded numbers; a wrap after 2^64 drops is not modelled.
- CountedMap.CountedMap.EvictIfFull: is the sequential call; concurrent evictions may pick the same fallback entry, so the code decides no bound for them.
- ClientHistory.HistoryConservesExactly: takes the log's promise that activity rows name only the requested clients.
- RoutingMirror.FormMirrorsBackend: covers ASCII domains; `new URL` and `idna` are foreign calls, parameters here.
- RoutingNames.AcceptedExactly: covers ASCII domains for the same reason, as do RoutingNames.SharedKeyExactly and RoutingNames.BackendStoresGoodNames.
- Summary.CountStatuses: sums without the 64-bit width of the counters, as do Upstreams and ClientHistory.
- PoolCleaning.SettingsForm.SaveConfig: compares canonical values where the form compares their JSON text, and takes the checks of edited pools, the form's other checks and the backend's answer as parameters.
- DomainStore.DomainStore.CreateDomain: takes domain syntax as a parameter and ASCII items; punycode conversion, regex validation and database constraints are foreign calls, the last two among the failures a create may return.
- Other writers of the domain tables (service blocking, the native API) appear only as the tables a request starts from.
- Weak memory: each relaxed atomic is one step of an interleaving.
- The lists of `/lists`: their loops have the shape of the domain lists' and would repeat those proofs with a second key.
- Read-only list endpoints, batch-delete body parsing, DTOs, status codes and error texts.
- `QueryTypeCounts::add` and the other filters of `/queries` (type, reply, dnssec): one-branch tables.
- Wall clocks, time zones and intervals of the schedule job; each pass gets its moment as input.
- The DNS engine: cache, wire codec, block index, DNSSEC, resolver.
- Routing, authentication, JSON, SQL, charts, polling and benchmarks.
