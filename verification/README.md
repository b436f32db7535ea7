# Verified model of the Safe client gateway's stateful core

The gateway sits between Safe's clients and its backend services. Most of it passes data along; this
project models, in Dafny 4.11, the parts where state, concurrency, byte parsing and ordering meet, and
proves what they keep. One module per component:

| module | what it models |
|---|---|
| `RedisStore` | Redis as the cache service uses it: hashes with one deadline per key, counters, and each command as one atomic step on them |
| `CacheProtocol` | the cache service and the cache-first reads as processes with program counters over one store, one command, clock reading or network reply at a time |
| `RedisCacheService`, `CacheFirstDataSource` | the same two components as classes, one call at a time |
| `RateWindow` | the fixed-window limiters on `increment` |
| `MultiSend`, `LimitAddresses`, `Relay` | the packed-bytes decoder, who is charged for a relay, and the counts |
| `Messages`, `Queue`, `Migrator`, `Chains` | day groups, overlapping queue pages, numbered migrations, the bounded crawl |
| `CacheRouter` | cache keys and fields |
| `CounterfactualSafes`, `Coingecko`, `Siwe` | caches that must agree with a table, a provider, an issuer |
| `Alerts`, `ZerionCursor` | the replay of owner changes, the page cursors |
| `Prelude`, `Decimal`, `Sorting` | what they share: optional values, decimal texts and text order, stable sorting |

`dafny verify dfyconfig.toml` checks all of it.

## How to read the model

- **Time** is a natural number of milliseconds read from one clock. A deadline is reached when the clock
  is at or past it, and a key whose deadline is reached is gone at once.
- **A command** is executed and answered (`Done`), executed but reported as an error, such as a timeout
  (`Lost`), or not executed (`Failed`). A `Lost` command takes effect at its own step, before the caller's
  next command: a caller's commands reach Redis in the order it sent them.
- **Interleavings** are sequences of events. Any two events of different processes may follow each other,
  and time may pass between any two.
- **Hashes and counters** are separate key spaces, as the gateway never uses one key for both.
- **Values read from outside** (network answers, decoder results, signature checks, random jitter, whether a
  statement goes through) are parameters, so the theorems hold for every value of them.
- Function selectors differ, so no calldata is a call of two of delay modifier, Safe, MultiSend and proxy factory.
- Numbers the source holds in JavaScript numbers stay below 2^53, where they are exact.
- Addresses compare by value: 20 bytes where the relay decodes them, texts of ASCII characters elsewhere.

## Where the code and its documentation differ

- `transactions.service.ts:462-468` promises that the first page of the queue is widened by one. The guard at
  line 473 returns first for offset 0, so it is not, and the first page shows one item fewer whenever
  another page follows (`Queue.FirstPageIsShort`).
- `messages.service.ts:93` promises descending groups. The keys are compared as texts, so this holds exactly
  when text order is day order on the page (`Messages.GroupsAreTheStableSort`), which days with equally many
  digits always satisfy: every day from 10 September 2001 to November 2286 (`Messages.ModernPagesAreSorted`).
- `postgres-database.migrator.ts:159-162` checks only that the last number is the number of migrations; equal
  numbers pass (`Migrator.DuplicatesPassTheCheck`).
- The relay limit and the single use of a nonce are checked and acted on in separate commands. Both hold for
  calls that do not overlap (`Relay.CountIsBounded`, `Siwe.AcceptancesNeverExceedIssues`) and may fail for
  calls that do (`Relay.OverlapExceedsTheLimit`, `Siwe.OverlapAcceptsTwice`).
- A relay count can exceed the increments that completed: an increment that is rejected after its HSET was
  executed may have been read by another relay before its HDEL runs (`Relay.SpoiledIncrementsCount`). When
  no such command goes wrong it cannot (`Relay.WithinWhenNothingIsSpoiled`).
- The cached entry of a single counterfactual Safe is keyed without the account, while the table is unique
  per account, so a hit may answer another account's row (`CounterfactualSafes.AnotherAccountsRow`).
- The comment of `_shouldBeCached` speaks of outdated data not being stored; a write that passed its check
  before the invalidation can still land after it (`CacheProtocol.OverlapLeavesStaleSuccess`), and a cached
  404 is never checked (`CacheProtocol.LateNotFoundIsCached`).

## Model

| member | source | states |
|---|---|---|
| CacheProtocol.StaleSuccessOnlyByOverlap | src/datasources/cache/cache.first.data.source.ts:115-195 | In every interleaving of requests, invalidations, plain writes, expiries and failing or unanswered commands: if a cached success comes from a request that started at or before the time in the live stamp of its key, its stamp lookup ran before that stamp was written and its write ran after that invalidation's unlink; the entry under the stamp key is always a stamp of that very key |
| CacheProtocol.FreshWithoutOverlap | src/datasources/cache/cache.first.data.source.ts:168-195 | When the check-and-write of the entry and the unlink-and-stamp of the live invalidation do not overlap, the entry is newer than the stamp |
| CacheProtocol.FreshRun | src/datasources/cache/cache.first.data.source.ts:115-166 | The inductive invariant behind both, over every run: claims of pending writers and stampers and of every stored entry |
| CacheProtocol.OverlapLeavesStaleSuccess | src/datasources/cache/redis.cache.service.ts:86-100 | The permitted overlap is real: a concrete run leaves a success not newer than the live stamp |
| CacheProtocol.UninterruptedMiss | src/datasources/cache/cache.first.data.source.ts:115-135 | A miss nobody interrupts caches the body, under the time its request began, if and only if there is no stamp or its milliseconds are strictly below that time |
| CacheProtocol.UninterruptedDelete | src/datasources/cache/redis.cache.service.ts:86-100 | An invalidation nobody interrupts leaves nothing under the key and a dated stamp with the present time |
| CacheProtocol.UndatedOnlyInFlight | src/datasources/cache/redis.cache.service.ts:68-76 | In every interleaving a field of a key without a deadline belongs to an `hSet` between its HSET and its end, or to one whose compensating HDEL was not executed |
| CacheProtocol.UndatedInFlightWhenUndoesSucceed | src/datasources/cache/redis.cache.service.ts:68-76 | So, as long as no compensating HDEL fails, every undated field belongs to an `hSet` still in flight, however many EXPIREs fail |
| CacheProtocol.FailedUndoLeaks | src/datasources/cache/redis.cache.service.ts:73-76 | Conversely a failing EXPIRE followed by a failing HDEL leaves a field no process owns and no deadline ends |
| CacheProtocol.DeadlineKept | src/datasources/cache/redis.cache.service.ts:70-72 | While a key lives, its deadline never moves, over any stretch of any run |
| CacheProtocol.FieldNeverOutlivesTtl | src/datasources/cache/redis.cache.service.ts:68-72 | While a key lives, less than the time-to-live that set its deadline has passed, however many fields were written since |
| CacheProtocol.StaysLive | src/datasources/cache/redis.cache.service.ts:55-100 | No run holds a key past its deadline or a hash without fields |
| RedisCacheService.RedisCacheService.HSet | src/datasources/cache/redis.cache.service.ts:55-77 | The store and the normal or error return of `hSet` for every combination of command replies; nothing happens without a positive time-to-live |
| RedisCacheService.HSetContract | src/datasources/cache/redis.cache.service.ts:60-76 | A normal return leaves the value with the key's old deadline or the given one; an error return leaves no value unless the HDEL was not executed |
| RedisCacheService.HSetTouchesNothingElse | src/datasources/cache/redis.cache.service.ts:66-76 | Whatever the replies, no other field, no counter and no deadline already set changes |
| RedisCacheService.HSetLeavesNothingUndated | src/datasources/cache/redis.cache.service.ts:68-76 | If every key had a deadline, every key still has one afterwards, unless the HDEL failed |
| RedisCacheService.HSetAloneIsOutcome | src/datasources/cache/redis.cache.service.ts:55-77 | A protocol process that runs its `hSet` without interruption does exactly what the call does as a whole |
| RedisCacheService.RedisCacheService.DeleteByKey | src/datasources/cache/redis.cache.service.ts:86-100 | An executed UNLINK leaves nothing under the key, stamp or no stamp; the stamp is written only after an answered UNLINK, under its own key; the call rejects if any of its commands or the time limit around the stamp fails, and the commands take effect all the same |
| RedisCacheService.RedisCacheService.Increment | src/datasources/cache/redis.cache.service.ts:102-114 | An executed transaction makes the counter one more than it was and keeps a deadline it has; only an answered one tells the count |
| RedisCacheService.IncrementThenRead | src/datasources/cache/redis.cache.service.ts:47-53 | `getCounter` right after `increment` of the same key reads the count when no key prefix is configured; with a prefix it reads another counter, since only `getCounter` adds it |
| RedisCacheService.PrefixKeyInjective | src/datasources/cache/redis.cache.service.ts:137-143 | Prefixing never makes two keys one |
| CacheFirstDataSource.CacheFirstDataSource.Get | src/datasources/cache/cache.first.data.source.ts:67-92 | Hit: answered from the cache, nothing touched. Miss: at most the one entry is written, a body if and only if there is no invalidation time or it is strictly before the request's start, a 404 always. A lookup that is not answered rejects the call and nothing is written |
| CacheFirstDataSource.InvalidatedMeanwhile | src/datasources/cache/cache.first.data.source.ts:129-136 | An invalidation completed while the request is out wins: the late body is answered but not cached |
| CacheFirstDataSource.CachedIffNewer | src/datasources/cache/cache.first.data.source.ts:129-135 | After an undisturbed miss with all commands answered the body is under its key if and only if there is no invalidation time or it is strictly before the request's start |
| CacheFirstDataSource.GetTwice | src/datasources/cache/cache.first.data.source.ts:74-91 | An undisturbed second call answers the same as the first, body or 404, whatever the network says by then; for a body, in a store without an invalidation time of the key or with an older one |
| RateWindow.AtMostLimitPerWindow | src/datasources/balances-api/zerion-balances-api.service.ts:382-390 | From the call that opens a window to its deadline at most the limit is admitted, whatever went before and however many transactions fail or go unanswered |
| RateWindow.AtMostTwiceTheLimit | src/datasources/cache/redis.cache.service.ts:102-114 | Any interval of one period, both ends included, admits at most twice the limit, over every run of concurrent calls |
| RateWindow.TwiceTheLimitIsReached | src/datasources/cache/redis.cache.service.ts:108-111 | The bound is attained: `limit` calls at once and `limit` more one period later are all admitted |
| RateWindow.CheckRateLimit | src/datasources/accounts/accounts.datasource.ts:256-267 | The limiter on the cache service takes exactly one step of the window model, whether its transaction is answered, unanswered or not executed |
| MultiSend.MapMultiSendTransactions | src/domain/contracts/decoders/multi-send-decoder.helper.ts:21-85 | The cursor loop yields the decoding of the bytes, keeping the parsed prefix where a round throws, and ends |
| MultiSend.DecodeRound | src/domain/contracts/decoders/multi-send-decoder.helper.ts:43-78 | One round at a cursor reads what the decoding of the bytes from that cursor starts with |
| MultiSend.DecodeEncode | src/domain/contracts/decoders/multi-send-decoder.helper.ts:42-79 | Decoding an encoded list followed by any bytes gives the list followed by the decoding of those bytes |
| MultiSend.EncodeInjective | src/domain/contracts/decoders/multi-send-decoder.helper.ts:42-79 | Equal encodings come from equal lists, and an encoding that is a prefix of another comes from a prefix of its list |
| MultiSend.DecodedIsEncoded | src/domain/contracts/decoders/multi-send-decoder.helper.ts:42-84 | For any bytes at all, every decoded entry but the last is well-formed and stands in the bytes exactly as the encoder writes it |
| MultiSend.FullRoundIsEncoded | src/domain/contracts/decoders/multi-send-decoder.helper.ts:43-78 | A round that stays inside the bytes consumed exactly the encoding of its entry |
| MultiSend.RoundAgainstBytes | src/domain/contracts/decoders/multi-send-decoder.helper.ts:43-78 | One round against the bytes themselves, a cut-off last entry included: when there is an entry, and its four parts |
| MultiSend.AtMostOnePerHeader | src/domain/contracts/decoders/multi-send-decoder.helper.ts:42-79 | At most one entry for every started 85-byte header |
| LimitAddresses.BatchChargesExactly | src/domain/relay/limit-addresses.mapper.ts:65-92 | A `multiSend` charges exactly `[a]` if and only if it goes to an official MultiSend, its list is not empty, every entry is a valid execTransaction aimed at `a`, and `a` is a Safe |
| LimitAddresses.ChargedBatchIsOutgoing | src/domain/relay/limit-addresses.mapper.ts:258-299 | Every entry of a charged batch is a call of the one charged Safe that sends tokens only to somebody else, and calls itself only without value and to cancel or manage itself |
| LimitAddresses.ExecTransactionChargesExactly | src/domain/relay/limit-addresses.mapper.ts:44-63 | A plain execTransaction charges its own Safe if and only if it is such an action and its target is a Safe |
| LimitAddresses.EncodedBatchIsAccepted | src/domain/relay/limit-addresses.mapper.ts:258-299 | Every encoded list of valid execTransactions of one Safe is accepted with exactly that Safe, whatever its length |
| LimitAddresses.OrderDoesNotMatter | src/domain/relay/limit-addresses.mapper.ts:391-408 | Two encoded batches with the same entries in any order and number are decided alike |
| LimitAddresses.RecoveryChargesExactly | src/domain/relay/limit-addresses.mapper.ts:39-42 | A recovery charges exactly `[a]` if and only if its module is enabled on `a` and it is one owner-management execTransaction of `a` or, through an official MultiSend, a list of at least one, all of `a` |
| LimitAddresses.CreationChargesItsOwners | src/domain/relay/limit-addresses.mapper.ts:94-113 | The creation of a Safe is accepted and charges all owners of its setup if and only if factory and singleton are official and it is set up with them |
| LimitAddresses.InvalidBatchIff | src/domain/relay/limit-addresses.mapper.ts:387-408 | An official batch is refused as invalid if and only if its first entry that is no valid execTransaction is so without a throw, or all are valid but aim at different Safes |
| LimitAddresses.RefusalReasons | src/domain/relay/limit-addresses.mapper.ts:65-115 | When each of the other reasons for a refusal is given |
| Relay.RelayRepository.RelayCall | src/domain/relay/relay.repository.ts:24-66 | Relays if and only if every count can be read and is below the limit and the provider accepts; stops at the first address that fails its check, with the limit error for it if and only if its count could be read. Increments that go through charge each address as often as it occurs; a failing one is swallowed with what it left |
| Relay.SetCountIsHSet | src/datasources/relay-api/gelato-api.service.ts:87-98 | Storing a count leaves and reports exactly what the `hSet` of its cache entry does, a failing one removing even an older count, and no other count changes |
| Relay.AttemptsChargeAtMost | src/domain/relay/relay.repository.ts:55-63 | Whatever its increments come to, one call raises no count by more than the occurrences of its address |
| Relay.CountsAreCharges | src/domain/relay/relay.repository.ts:83-94 | In every sequential run with no failing increment each stored count is the number of occurrences of the address in the calls admitted after its last expiry |
| Relay.CountIsBounded | src/domain/relay/relay.repository.ts:34-48 | In every interleaving in which relays of an address do not overlap, whatever other relays do, whatever expires and whatever command fails: no count exceeds `limit + m - 1`, m the largest repetition of the address in one relay |
| Relay.DistinctAddressesRespectTheLimit | src/domain/relay/relay.repository.ts:34-48 | The same with distinct addresses in every relay: no count exceeds the limit |
| Relay.BoundIsReached | src/domain/relay/relay.repository.ts:75-81 | A list repeating one address m times, let through at `limit - 1`, reaches that bound |
| Relay.CountNeverExceedsIncrements | src/datasources/relay-api/gelato-api.service.ts:77-98 | In every interleaving with expiries and with HSETs, EXPIREs and HDELs that fail or go unanswered: a stored count never exceeds the increments completed for its address, plus those between HSET and EXPIRE, plus those rejected after their HSET was executed |
| Relay.WithinWhenNothingIsSpoiled | src/datasources/cache/redis.cache.service.ts:68-76 | When no HSET of that address goes unanswered after it was executed and no EXPIRE of it goes wrong, the count stays within the increments completed or in flight |
| Relay.WithinIff | src/datasources/cache/redis.cache.service.ts:68-76 | All runs with at most k increments rejected after their HSET stay within, exactly when k is 0 (or the limit admits nobody) |
| Relay.SpoiledIncrementsCount | src/datasources/cache/redis.cache.service.ts:68-76 | The bound is attained for every k: k relays are rejected after their HSET, one completes, and the count is k + 1 |
| Relay.OverlapExceedsTheLimit | src/domain/relay/relay.repository.ts:34-63 | Under any positive limit any number of overlapping relays of one address may be admitted and charged, with no command failing |
| Relay.RelayAlone | src/domain/relay/relay.repository.ts:24-66 | A relay nobody interrupts does in the interleaved model what the call does as a whole |
| Messages.GroupsAreTheStableSort | src/routes/messages/messages.service.ts:98-122 | Reading the groups in turn gives the stable newest-first sort of the page if and only if text order is day order on the page; otherwise the reading is not even newest first |
| Messages.LabelsDecreaseIff | src/routes/messages/messages.service.ts:109-112 | The labels strictly decrease if and only if text order is day order on the page |
| Messages.ModernPagesAreSorted | src/routes/messages/messages.service.ts:98-122 | For messages from 10 September 2001 on, all day stamps have 13 digits: the groups read in turn are the stable newest-first sort, under strictly decreasing labels |
| Messages.EachMessageUnderItsDay | src/routes/messages/messages.service.ts:101-107 | Every label is the UTC day start of exactly the messages under it, never of none, newest first |
| Messages.DigitCountMatters | src/routes/messages/messages.service.ts:112-112 | 11 January 1970 is listed before 13 January 1970: 9 digits against 10 |
| Decimal.LexAgreesIff | src/routes/messages/messages.service.ts:112-112 | For x < y, text order puts x first if and only if x does not exceed y without its extra digits |
| Sorting.SortIsStable | src/routes/messages/messages.service.ts:116-118 | The sort is ordered and keeps ties in their order |
| Sorting.StableSortUnique | src/routes/messages/messages.service.ts:116-118 | Two ordered lists with the same ties in the same order are equal |
| Queue.PageContents | src/routes/transactions/transactions.service.ts:325-361 | At any offset inside the queue the mapper gets exactly the queue from one before the offset to one past the page, without the item that is announced as next; the next-page item is the first not shown, the previous-page item the one before the offset |
| Queue.PagesJoin | src/routes/transactions/transactions.service.ts:470-488 | Consecutive pages leave no gap, and the last one ends the queue |
| Queue.EveryItemOnOneOrTwoPages | src/routes/transactions/transactions.service.ts:470-488 | Walking at offsets 0, L, 2L, ..., every index is handed on at least one page and at most two, which are consecutive |
| Queue.WalkReadsTheQueue | src/routes/transactions/transactions.service.ts:511-517 | Read in order, dropping what the page before has shown, the pages give the queue up to where the last one ends |
| Queue.FirstPageIsShort | src/routes/transactions/transactions.service.ts:473-475 | The first page is not widened, so it hands over one item fewer than asked whenever another page follows |
| Migrator.CheckForcesConsecutive | src/datasources/db/v1/postgres-database.migrator.ts:159-162 | Once the length check passes, the ids are exactly 1 to n if and only if they are distinct and positive |
| Migrator.DuplicatesPassTheCheck | src/datasources/db/v1/postgres-database.migrator.ts:159-162 | The check alone accepts two directories with the same number |
| Migrator.SortedMigrationsOrdered | src/datasources/db/v1/postgres-database.migrator.ts:138-153 | The list holds every migration directory once, in the order of the ids |
| Migrator.AcceptedIff | src/datasources/db/v1/postgres-database.migrator.ts:155-164 | A folder is accepted if and only if it has migrations and the greatest number is how many there are |
| Migrator.NumberedDirectory | src/datasources/db/v1/postgres-database.migrator.ts:143-151 | Five digits, an underscore and any text name a migration with that number and that name |
| Migrator.MigrationsAreNumbered | src/datasources/db/v1/postgres-database.migrator.ts:143-151 | And nothing else does |
| Migrator.PostgresDatabaseMigrator.RunAll | src/datasources/db/v1/postgres-database.migrator.ts:50-55 | The transaction commits if and only if no migration throws and no id is taken, and then has run and recorded all of them in order |
| Migrator.PostgresDatabaseMigrator.Migrate | src/datasources/db/v1/postgres-database.migrator.ts:43-58 | Succeeds if and only if no migration throws and no id is taken or repeated, and then has run and recorded everything that was left; otherwise the table and the database are as before |
| Migrator.RemainingIsTheRest | src/datasources/db/v1/postgres-database.migrator.ts:50-51 | On a well-numbered folder of which a prefix has run, slicing by the last id leaves exactly the migrations not run, and they can be recorded |
| Migrator.AttemptKeepsPrefix | src/datasources/db/v1/postgres-database.migrator.ts:43-58 | One run keeps the table a prefix of the folder, the whole of it when nothing throws |
| Migrator.TableIsAPrefix | src/datasources/db/v1/postgres-database.migrator.ts:43-58 | After any sequence of runs on a growing folder, rolled-back ones included, the table holds 1 to k, each the folder's migration of that number, and exactly these have been run on the database, each once, in order |
| Migrator.CommittedStays | src/datasources/db/v1/postgres-database.migrator.ts:53-58 | No later run takes back, repeats or reorders what was recorded and run |
| CacheRouter.KeyInjective | src/datasources/cache/cache.router.ts:75-229 | For digit chain ids and 0x-hex addresses two keys are equal if and only if family, chain and address are |
| CacheRouter.KeyIsNoStampKey | src/datasources/cache/cache.router.ts:75-229 | No such key is the key of an invalidation time, with or without a prefix |
| CacheRouter.DelegatesFieldInjective | src/datasources/cache/cache.router.ts:209-222 | Two delegate queries share a field if and only if they agree, the label counting as its text, however many separators it contains |
| CacheRouter.AllTransactionsFieldInjective | src/datasources/cache/cache.router.ts:372-385 | The same for all-transactions queries with orderings free of the separator |
| CounterfactualSafes.CachedListIsTheQuery | src/datasources/db/v1/cached-query-resolver.ts:33-61 | Over any sequential run, failing statements and failing cache writes included, a cached list is what the query returns now, as long as the clearing of a changed list goes through |
| CounterfactualSafes.OtherListsUnchanged | src/datasources/accounts/counterfactual-safes/counterfactual-safes.datasource.ts:110-160 | No operation changes the query result of another address |
| CounterfactualSafes.FailedClearAfterCreate | src/datasources/accounts/counterfactual-safes/counterfactual-safes.datasource.ts:62-66 | A creation whose clearing fails leaves a stale list exactly when a list was cached |
| CounterfactualSafes.FailedClearAfterDelete | src/datasources/accounts/counterfactual-safes/counterfactual-safes.datasource.ts:110-160 | A deletion of a Safe, of all Safes or of the account whose clearing fails leaves a stale list exactly when a cached list has a row it deletes |
| CounterfactualSafes.OverlappingReadIsStale | src/datasources/db/v1/cached-query-resolver.ts:46-55 | A read whose query ran before a creation and which writes after its clearing leaves a stale list exactly when it found any rows |
| CounterfactualSafes.SinglesLiveStep | src/datasources/accounts/counterfactual-safes/counterfactual-safes.datasource.ts:110-160 | Every operation that clears the single Safes it changes, but the deletion of an account, keeps each cached single Safe one row of the table under its key |
| CounterfactualSafes.AccountDeletionAndSingles | src/datasources/accounts/accounts.datasource.ts:139-146 | The deletion of an account keeps them backed exactly when none of them is its own |
| CounterfactualSafes.HitIsTheQueryIff | src/datasources/accounts/counterfactual-safes/counterfactual-safes.datasource.ts:74-88 | A cached single Safe is what the query would find exactly when its row is of the account asked for |
| CounterfactualSafes.AnotherAccountsRow | src/datasources/cache/cache.router.ts:554-562 | The key names no account: of any two accounts with a Safe of the same chain and address, the second is answered the row of the first |
| CounterfactualSafes.CounterfactualSafesDatasource.CreateCounterfactualSafe | src/datasources/accounts/counterfactual-safes/counterfactual-safes.datasource.ts:53-67 | Adds exactly the new row to the address's query, or nothing; refuses a second Safe of the same account and key |
| CounterfactualSafes.CounterfactualSafesDatasource.GetCounterfactualSafesForAddress | src/datasources/accounts/counterfactual-safes/counterfactual-safes.datasource.ts:97-108 | Answers what the query returns now, cached or not; caches it if and only if it is not empty, the time-to-live is positive and the write goes through |
| CounterfactualSafes.CounterfactualSafesDatasource.GetCounterfactualSafe | src/datasources/accounts/counterfactual-safes/counterfactual-safes.datasource.ts:69-95 | A miss answers what the query finds; a hit does exactly when the cached row is of the account asked for, and answers a row of the table under that key in any case |
| CounterfactualSafes.CounterfactualSafesDatasource.DeleteCounterfactualSafe | src/datasources/accounts/counterfactual-safes/counterfactual-safes.datasource.ts:110-136 | The row is gone if the statement goes through; each of the two keys is cleared by its own UNLINK even if it does not |
| CounterfactualSafes.CounterfactualSafesDatasource.DeleteCounterfactualSafesForAccount | src/datasources/accounts/counterfactual-safes/counterfactual-safes.datasource.ts:138-160 | Exactly the rows of the account are gone; the list and each deleted row's key are cleared by UNLINKs of their own |
| CounterfactualSafes.CounterfactualSafesDatasource.DeleteAccount | src/datasources/accounts/accounts.datasource.ts:130-147 | Exactly the account of the address and its rows are gone, so its query is empty; the list is cleared even if the statement fails, and no single Safe is |
| CounterfactualSafes.RetiredForGood | src/datasources/accounts/counterfactual-safes/counterfactual-safes.datasource.ts:53-61 | The record of a deleted account never adds a Safe again, whatever happens in between, a new account of the address included |
| Alerts.MapSafeSetup | src/domain/alerts/alerts.repository.ts:112-159 | The owners end as those of the Safe that survive the batch, in their order under their last names, followed by those the batch adds and keeps; the threshold is the last one a change carries, else the Safe's. The Safe passed in and its array of owners, which the fold pushes onto in place, are untouched |
| Alerts.ReplayOwners | src/domain/alerts/alerts.repository.ts:116-158 | The fold, change by change, and the fates of the owners, one by one, are the same list |
| Alerts.ReplayKeepsValid | src/domain/alerts/alerts.repository.ts:112-159 | Any batch that respects the Safe's preconditions keeps the owners duplicate-free up to letter case, 1 <= threshold <= owners, and owners = start + adds - removes |
| Alerts.AllowedIsExact | src/domain/alerts/alerts.repository.ts:117-149 | On a valid setup an addition, removal or new threshold leaves a valid setup exactly when the Safe's precondition holds |
| Alerts.ReplayConcat | src/domain/alerts/alerts.repository.ts:116-158 | Replaying a + b is replaying b after a |
| Alerts.SwapThereAndBack | src/domain/alerts/alerts.repository.ts:134-143 | Swapping an owner out and in again restores the Safe |
| Chains.ChainsRepository.GetAllChains | src/domain/chains/chains.repository.ts:67-95 | Exactly the valid chains among the first min(n, 40 * maxSequentialPages), in order; truncation reported if and only if the source is longer and a page was asked for |
| Chains.ChainsRepository.GetChains | src/domain/chains/chains.repository.ts:53-65 | Answers exactly the valid chains of the window of the source, in order, and a next link if and only if the source goes on after the window, however many were dropped |
| Chains.KeepConcat | src/domain/entities/schemas/page.schema.factory.ts:27-43 | Filtering page by page is filtering the whole |
| Chains.KeepIsOrderedSelection | src/domain/entities/schemas/page.schema.factory.ts:28-31 | Filtering reads the items at exactly the valid positions, in increasing order |
| ZerionCursor.CursorRoundTrip | src/datasources/balances-api/zerion-balances-api.service.ts:351-380 | For every positive offset, decoding the encoder's cursor gives back the offset's decimal text, and so the offset |
| ZerionCursor.Base64RoundTrip | src/datasources/balances-api/zerion-balances-api.service.ts:353-353 | Decoding the base64 text of any bytes gives the bytes (section 4 of RFC 4648) |
| ZerionCursor.SextetsAreTheBits | src/datasources/balances-api/zerion-balances-api.service.ts:353-353 | Four sextets are the 24 bits of three bytes, fewer are filled with zero bits |
| ZerionCursor.EncodedLength | src/datasources/balances-api/zerion-balances-api.service.ts:353-353 | Four characters for every three bytes started, padded at the end and nowhere else |
| ZerionCursor.CursorIff | src/datasources/balances-api/zerion-balances-api.service.ts:351-355 | There is a cursor exactly for an offset that is given and not 0 |
| ZerionCursor.CursorsDiffer | src/datasources/balances-api/zerion-balances-api.service.ts:351-355 | Different offsets have different cursors |
| ZerionCursor.DecodeZerionPagination | src/datasources/balances-api/zerion-balances-api.service.ts:365-380 | `limit` and `offset` are set from the provider's parameters when these are there and not empty, and stay as they were otherwise; all other parameters stay in their order |
| ZerionCursor.NextLinkKeepsOffset | src/datasources/balances-api/zerion-balances-api.service.ts:365-380 | A next link carrying the cursor of an offset is read back as that offset |
| Coingecko.CoingeckoApi.GetTokenPrices | src/datasources/balances-api/coingecko-api.service.ts:175-215 | One record for every requested lowercased address, as often as requested: the cached one, else one that holds p if and only if the provider answered p for it and p is not 0; the provider is asked once, for the first 100 uncached ones in order, and only if some are uncached. Fails only if the provider or a cache write does, and never loses a cached record |
| Coingecko.CoingeckoApi.GetTokenPricesFromCache | src/datasources/balances-api/coingecko-api.service.ts:254-276 | The records of exactly the cached tokens, in order |
| Coingecko.CoingeckoApi.GetTokenPricesFromNetwork | src/datasources/balances-api/coingecko-api.service.ts:282-306 | A record for every token in order, holding p if and only if the provider answered p and p is not 0, each written to the cache; nothing else in the cache changes; a rejected write rejects the call and leaves no wrong record |
| Coingecko.LaterSublist | src/datasources/balances-api/coingecko-api.service.ts:189-204 | While the entries live, after any calls in between, a call on a sublist asks the provider nothing and answers the same records |
| Siwe.AcceptancesNeverExceedIssues | src/domain/siwe/siwe.repository.ts:61-112 | Over any run in which verifications of a nonce do not overlap, its acceptances never exceed its issues |
| Siwe.FinishedNonceIsUnusable | src/domain/siwe/siwe.repository.ts:109-111 | However a verification ends, once its clearing is executed the nonce is gone and a new verification of it is not accepted |
| Siwe.UnusableUntilIssued | src/datasources/siwe-api/siwe-api.service.ts:23-36 | And it stays unusable, whatever happens, until the same nonce is issued again |
| Siwe.AcceptedOnlyWithinTtl | src/datasources/siwe-api/siwe-api.service.ts:23-31 | An acceptance is decided only within the time-to-live of an earlier issue of its nonce |
| Siwe.LiveNonceWasIssued | src/datasources/siwe-api/siwe-api.service.ts:23-26 | A live nonce was stored by an issue of it, with that issue's deadline |
| Siwe.OverlapAcceptsTwice | src/domain/siwe/siwe.repository.ts:93-111 | Two overlapping verifications of one nonce are both accepted |
| Siwe.SiweRepository.IsValidMessage | src/domain/siwe/siwe.repository.ts:61-112 | Accepted if and only if the message is valid, its signature right, its expiration absent or at most the validity period from now, and its nonce live; the nonce is cleared in every case but that of a message without one |
| Siwe.AcceptsIff | src/domain/siwe/siwe.repository.ts:72-103 | In the run model too, a verification is set to accept under exactly these conditions |
| Siwe.EveryCheckCounts | src/domain/siwe/siwe.repository.ts:72-103 | A message that fails any single one of them is never accepted, whatever else holds |
| Siwe.SignInOnce | src/domain/siwe/siwe.repository.ts:38-112 | A fresh nonce serves one sign-in: the first call with a good message for it is accepted, the next is not |
| Siwe.CallIsBeginFinish | src/domain/siwe/siwe.repository.ts:61-112 | An uninterrupted call is a beginning and an end of the run model |

## Left out

- CacheProtocol.StaleSuccessOnlyByOverlap: callers are assumed never to name an invalidation-time entry themselves (`Legal`); `CacheRouter.KeyIsNoStampKey` shows this for the chain and address keys only.
- CacheFirstDataSource.CacheFirstDataSource.Get: a response body that itself looks like a cached 404 is not told apart.
- Relay.CountNeverExceedsIncrements: the time-to-live of counts is taken as positive; without one nothing is ever stored, as `SetRelayCount` states.
- Relay.CountsAreCharges: calls run one after the other with no failing increment, and counters expire between them; with interleaving, failures and expiry at any step a count is bounded instead, by `CountIsBounded` and `CountNeverExceedsIncrements`.
- CounterfactualSafes.CachedListIsTheQuery: sequential runs only; what an overlapping read can leave is stated by `OverlappingReadIsStale`. Rows of an account keep their insertion order in queries.
- CounterfactualSafes.SinglesLiveStep: the deletion of an account clears no single Safe, so it is excluded there and stated exactly in `AccountDeletionAndSingles`.
- Coingecko.CoingeckoApi.GetTokenPrices: one fiat code and one chain at a time, and no expiry between two calls.
- Chains.ChainsRepository.GetAllChains: the Config Service is assumed to serve its list in pages with a next link if and only if items remain, at offset + limit.
- Queue.WalkReadsTheQueue: the queue is assumed not to change during a walk, and the upstream next link to be present if and only if items remain.
- Messages.GroupsAreTheStableSort: dates before 1970, whose stamps are negative, are not modelled.
- ZerionCursor.DecodeZerionPagination: bytes above 127 in a cursor, which UTF-8 would join, are read one by one; the encoder never produces them.
- Migrator.PostgresDatabaseMigrator.Migrate: two migrators at once, and a migration that commits on its own, are not modelled.
- RateWindow.CheckRateLimit: an account creation with an invalid client address is not limited at all and not modelled.
- Siwe.AcceptedOnlyWithinTtl: an acceptance is timed when the nonce is read, not when the call returns after the signature check; and storing a nonce is one step that never fails, so a nonce left without a deadline by a failing EXPIRE and a failing HDEL is not covered.
- Siwe.AcceptancesNeverExceedIssues: the random generation of nonces is not modelled; a nonce issued twice may be accepted twice.
- Concrete calldata decoding, address checksums, signatures, hashing and encryption: unknown functions of their input.
- The other keys and fields of the cache router (chains, tokens, staking, notifications, accounts): the same concatenation with fewer free parts.
- `setCounter`, client readiness outside `hSet`, connection shutdown, and `DatabaseMigrator` of the second database layer: short or without a promise across calls.
- The test helper of the migrator, history pages, address books, schema validation, controllers, configuration, logging and HTTP clients: no state across calls, or settled by one branch.
