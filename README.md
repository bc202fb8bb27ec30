# event-attendees: a Dafny model of the event store and the load generator

The repository is a load generator for a relational event store. Writer threads
pick a random event id. If that id's stripe lock is free, they write the event
with a random start time and a random attendee set. Reader threads search for the
events in a random time window that have every attendee of a random attendee set.
A logging loop reports writes and reads per second.

This project models the two classes that do that work:

- `DataAccessService` (module `EventStore`, file `data_access_service.dfy`) is a
  class whose `table` field is the `event` table, a map from the primary key `id`
  to the row's start time and `attendees` string. `CreateEvent`, `UpdateEvent` and
  `CreateOrUpdateEvent` change the table in place. `HasEvent`, `GetEvent` and
  `FindEvents` read it. The `attendees` column is `VARCHAR(128)`
  (src/main/java/me/qlibin/demo/Application.java:61), so a serialised set longer
  than 128 characters is refused with a data-integrity error, as MySQL does in
  strict mode.
- The attendee encoding (module `Attendees`, file `attendees.dfy`). A set of ids
  becomes the `att_<n>` words in ascending order, joined by spaces for the column,
  or joined by `" +"` after a leading `"+"` for the boolean full-text query. The
  module also holds the full-text match the query performs. `DeserializeAttendees`
  reads a stored string as the full-text index sees it when every id is
  non-negative, since the words are then split at spaces only; the code never
  decodes the column itself. The invariant `WellFormed` says that every stored string is
  one that `SerializeAttendees` produced.
- `EventProcessor` (module `Processor`, file `event_processor.dfy`) is a class
  with the four `AtomicLong` counters as integer fields. It also holds an array of
  busy flags for the stripe locks, an abstract hash that picks a key's stripe, and
  the service. `Start` is `start()` up to launching the workers. `Iteration`,
  `WriterPass` and `ReaderPass` are one pass of the writer and reader loops.
  `RateTick` is one tick of the rate-logging loop, and `RateLog` runs it over a
  sequence of counter readings.
  `RandomAttendees` is the attendee-set loop that writers and readers share. Its
  bound is drawn again before every pass.
- `getRandom` and `ThreadLocalRandom.nextInt` (module `Random`, file `random.dfy`)
  are a nondeterministic choice within the bounds they promise. They fail with
  `IllegalArgumentException` exactly where the JDK throws. That includes
  `getRandom(Integer.MAX_VALUE)`, because `n + 1` wraps to a negative bound.
- Supporting modules: `Java` (32-bit `int` wrap-around, division that truncates
  toward zero, the exceptions), `Text` (Guava's `Joiner`, splitting text into
  words, `Integer.toString` and its inverse) and `Wrappers` (Option, Result,
  Outcome).

Exceptions are modelled as `Failure`/`Fail`/`Thrown` values. The `finally` block
that releases a stripe lock runs on every path out of `Iteration`: on a write, and
when a draw inside the locked section throws. Java `int` wrap-around is written out
wherever the code does arithmetic on `int`: `n + 1` in `getRandom`, `maxTime - 1`
and `t1 + 1` in the reader, `writersCount * 2` for the stripes, and
`logEvery * 1000` for the sleep. Ids and start times are never used in arithmetic,
so the model stores them as unbounded integers.

## Notes on the code

- The `event_attendee` table is created
  (src/main/java/me/qlibin/demo/Application.java:63-65) but never written or
  read. Attendees live as a word string on the `event` row and are searched with
  a boolean full-text query.
- A drawn attendee set always has between 1 and `maxEventAttendees` members,
  because the first loop bound drawn is at least 1 (`RandomAttendees`).
- No configuration value is validated up front. A stripe count
  `writersCount * 2` that is not positive (after int wrap-around) makes
  `Striped.lock` throw (src/main/java/me/qlibin/demo/EventProcessor.java:56). A
  `writersCount` or `readersCount` that is not positive makes
  `Executors.newFixedThreadPool` throw (EventProcessor.java:60 and 76). Each of
  these makes `start()` throw before any worker runs (`Start`). An invalid draw bound makes a draw throw
  inside an iteration or a search.
- An exception leaves `Writer.run` or `Reader.run` and ends that thread. The model
  returns the exception from the pass and counts nothing for it.
- The reader calls `dataAccessService.getEvents`, but `DataAccessService` declares
  no such method (src/main/java/me/qlibin/demo/EventProcessor.java:210). The model
  calls `FindEvents` there, as the surrounding comment describes.

## Model

| member | source | states |
|---|---|---|
| `Java.Wrap` | src/main/java/me/qlibin/demo/EventProcessor.java:140 | Java `int` arithmetic: the result is an `int`, equals the exact value when that fits, and differs from it by a multiple of 2^32 |
| `Java.Div` | src/main/java/me/qlibin/demo/EventProcessor.java:121-122 | the rate division truncates toward zero, and a non-negative count over a positive interval gives a non-negative rate |
| `Text.SplitJoin` | src/main/java/me/qlibin/demo/DataAccessService.java:50 | splitting a space-joined list on spaces gives the list back when no part contains a space |
| `Text.IntToString` | src/main/java/me/qlibin/demo/DataAccessService.java:61 | the decimal rendering of an id is an optional minus sign followed by digits, so it contains no space |
| `Text.IntToStringRoundTrip` | src/main/java/me/qlibin/demo/DataAccessService.java:61 | parsing the rendered id gives back the id, so different ids give different words |
| `Attendees.SortAscending` | src/main/java/me/qlibin/demo/DataAccessService.java:60 | `sorted()` returns the ids in ascending order and as a permutation of the input |
| `Attendees.Elements` | src/main/java/me/qlibin/demo/DataAccessService.java:58-59 | the set's members in an iteration order: each member exactly once, in strictly ascending order |
| `Attendees.SortedUnique` | src/main/java/me/qlibin/demo/DataAccessService.java:60 | two ascending sequences with the same elements are equal, so the sort's output depends only on what was sorted |
| `Attendees.IntegersToWordsOrderFree` | src/main/java/me/qlibin/demo/DataAccessService.java:57-63 | `integersToWords` gives the same words for any iteration order of the same collection |
| `Attendees.SerializeAnyIterationOrder` | src/main/java/me/qlibin/demo/DataAccessService.java:49-63 | whatever order the `HashSet` yields its members in, the stored string is the same |
| `Attendees.SerializedWords` | src/main/java/me/qlibin/demo/DataAccessService.java:49-63 | the empty set serialises to ""; otherwise the space-separated words are `att_n` for each member, in ascending order |
| `Attendees.TokenInSerialized` | src/main/java/me/qlibin/demo/DataAccessService.java:57-63 | `att_n` is a word of the stored string if and only if n is an attendee |
| `Attendees.DeserializeSerialize` | src/main/java/me/qlibin/demo/DataAccessService.java:49-51 | reading the stored string back gives exactly the attendee set written |
| `Attendees.QueryTerms` | src/main/java/me/qlibin/demo/DataAccessService.java:53-55 | the query for no attendees is exactly "+"; otherwise its terms are "+att_n" for each attendee, in ascending order |
| `Attendees.MatchesIffSuperset` | src/main/java/me/qlibin/demo/DataAccessService.java:65-81 | a stored row passes the boolean full-text filter if and only if its attendees include every requested attendee |
| `EventStore.SingleResult` | src/main/java/me/qlibin/demo/DataAccessService.java:91 | no row gives null, one row gives that row, and more than one row throws IncorrectResultSizeDataAccessException |
| `EventStore.DataAccessService.constructor` | src/main/java/me/qlibin/demo/Application.java:53-62 | the service works on the `event` table as start-up leaves it: empty after `--clean` dropped it, or with the rows earlier runs wrote, which `CREATE TABLE IF NOT EXISTS` keeps |
| `EventStore.DataAccessService.SelectById` | src/main/java/me/qlibin/demo/DataAccessService.java:85-86 | a query by primary key returns at most one row, and returns one exactly when the id is stored |
| `EventStore.DataAccessService.HasEvent` | src/main/java/me/qlibin/demo/DataAccessService.java:83-88 | `hasEvent` is true exactly when a row with the id exists |
| `EventStore.DataAccessService.GetEvent` | src/main/java/me/qlibin/demo/DataAccessService.java:90-95 | `getEvent` never throws; it gives null for an absent id and otherwise the one row with that id |
| `EventStore.DataAccessService.FindEvents` | src/main/java/me/qlibin/demo/DataAccessService.java:65-81 | the result is exactly the stored events with t1 <= startTime <= t2 whose attendee set contains every requested attendee |
| `EventStore.DataAccessService.CreateEvent` | src/main/java/me/qlibin/demo/DataAccessService.java:97-99 | the insert adds the row for a new id; a value too long for the `attendees` column is refused, and an existing id throws a duplicate-key error; a refused insert changes nothing |
| `EventStore.DataAccessService.UpdateEvent` | src/main/java/me/qlibin/demo/DataAccessService.java:101-103 | the update replaces both fields of an existing row, and is refused without change when the value is too long for the `attendees` column; it changes nothing when the id is absent |
| `EventStore.DataAccessService.CreateOrUpdateEvent` | src/main/java/me/qlibin/demo/DataAccessService.java:35-47 | it succeeds exactly when the serialised attendees fit the 128-character column; then the row for the id holds the new start time and serialised attendees, whether it existed before or not, `hasEvent` is true and `getEvent` returns that row; otherwise it throws a data-integrity error and changes nothing; the invariant is kept either way |
| `EventStore.StoredRowsMatch` | src/main/java/me/qlibin/demo/DataAccessService.java:74-80 | over a table written by the service, the full-text filter keeps a row exactly when its attendees include the requested set |
| `EventStore.UpsertKeepsWellFormed` | src/main/java/me/qlibin/demo/DataAccessService.java:35-47 | a write whose serialised attendees fit the column keeps every row decodable; the written row has the given start time and decodes to exactly the given attendees |
| `EventStore.UpsertKeepsOtherRows` | src/main/java/me/qlibin/demo/DataAccessService.java:35-47 | after a write the stored ids are the old ids plus the written one, and every other row is unchanged |
| `EventStore.UpsertIdempotent` | src/main/java/me/qlibin/demo/DataAccessService.java:35-47 | writing the same event twice in a row leaves the same table as writing it once |
| `EventStore.UpsertOverwrites` | src/main/java/me/qlibin/demo/DataAccessService.java:101-103 | a second write to an id replaces the first write's start time and whole attendee set |
| `EventStore.FindsStoredEvent` | src/test/java/me/qlibin/demo/EventAttendeesApplicationTests.java:33-47 | an event stored with attendees {1, 3, 4, 6} at 12030 is found by a search over [100, 15000] for {3, 6} |
| `Random.NextInt` | src/main/java/me/qlibin/demo/EventProcessor.java:140 | the draw lies in [origin, bound) and throws exactly when origin >= bound |
| `Random.GetRandom` | src/main/java/me/qlibin/demo/EventProcessor.java:139-141 | `getRandom(n)` lies in [1, n]; it throws exactly when n < 1 or n is `Integer.MAX_VALUE` |
| `Random.GetRandomFrom` | src/main/java/me/qlibin/demo/EventProcessor.java:143-145 | `getRandom(s, n)` lies in [s, n]; it throws exactly when s > n or n is `Integer.MAX_VALUE` |
| `Processor.RandomAttendees` | src/main/java/me/qlibin/demo/EventProcessor.java:172-175 | the attendee set is non-empty, has at most `maxEventAttendees` members, all in [1, `maxAttendeeId`]; it throws exactly when either bound is invalid |
| `Processor.RandomTimeRange` | src/main/java/me/qlibin/demo/EventProcessor.java:204-205 | the reader's window satisfies 1 <= t1 < t2 <= maxTime, and the draws throw exactly unless 2 <= maxTime < `Integer.MAX_VALUE` |
| `Processor.EventProcessor.Start` | src/main/java/me/qlibin/demo/EventProcessor.java:53-90 | start-up throws IllegalArgumentException exactly when the stripe count `writersCount * 2` (with int wrap-around), `writersCount` or `readersCount` is not positive; otherwise the processor holds the given counts, bounds, stripe hash and service, all four counters are zero, and there are `writersCount * 2` stripe locks, all free |
| `Processor.EventProcessor.Iteration` | src/main/java/me/qlibin/demo/EventProcessor.java:166-188 | the event-id draw throws exactly when `maxEventCount` is not a valid bound; otherwise the iteration skips (returns false) exactly when the drawn id's stripe was held, without drawing anything more; with the stripe free, the locked section throws exactly when one of its bounds is invalid; otherwise it writes (returns true) through `createOrUpdateEvent` with draws in range, or the store refuses a too-long attendee set; only a write changes the table; every stripe lock is as it was before, also when the locked section throws |
| `Processor.EventProcessor.WriterPass` | src/main/java/me/qlibin/demo/EventProcessor.java:159-163 | the writes counter goes up by one exactly when the iteration wrote; a skip, a refused write or an exception counts nothing |
| `Processor.EventProcessor.ReaderPass` | src/main/java/me/qlibin/demo/EventProcessor.java:203-216 | the reads counter goes up by one for every completed search, whatever it found; the search is `findEvents` over a window and a set within the bounds |
| `Processor.EventProcessor.RateTick` | src/main/java/me/qlibin/demo/EventProcessor.java:107-123 | a tick sets each period count to the counter minus the baseline, advances the baseline to the counter, and reports count / `logEvery`; a negative sleep time throws IllegalArgumentException before anything changes, and a zero `logEvery` throws ArithmeticException at the division |
| `Processor.EventProcessor.RateLog` | src/main/java/me/qlibin/demo/EventProcessor.java:102-125 | run over successive counter readings from the counters when logging began, the period counts the ticks set are exactly `TickDeltas` of those readings; the loop throws at its first tick exactly when the sleep time is negative or `logEvery` is zero |
| `Processor.TickDeltasTelescope` | src/main/java/me/qlibin/demo/EventProcessor.java:104-114 | over successive ticks the reported increases add up to the counter's total increase since logging began |
| `Processor.TickDeltasNonNegative` | src/main/java/me/qlibin/demo/EventProcessor.java:111-114 | a counter that only grows is never reported as decreasing |

## Left out

- Thread machinery is not modelled: the thread pools, the start latch, starting
  `Writer` and `Reader` threads, the interrupt checks and the length of the sleep.
  Each worker loop is modelled as one sequential pass (`WriterPass`,
  `ReaderPass`). The rate loop is modelled as `RateTick`, and as `RateLog` over a
  given sequence of counter readings that stand for the workers' progress
  during each sleep.
- Concurrency races are not modelled. The rate loop reads `writesCounter` and
  `readsCounter` twice per tick (EventProcessor.java:111 and 113), so increments
  that land in between are never reported. `createOrUpdateEvent` checks and then
  writes in two steps with no transaction. Neither has a sequential meaning.
- Guava's `Striped` internals are not modelled: rounding the stripe count up to a
  power of two, the hash it spreads keys with, and blocking. A key's stripe is an
  abstract hash reduced modulo the number of stripes, and `tryLock` is a test of
  its flag.
- Processor.EventProcessor.Start: Guava's upper limit on stripes and the memory an
  enormous stripe count needs are not modelled; a positive `writersCount * 2` above
  2^30 is accepted here.
- JDBC, the SQL text and MySQL's full-text engine are not modelled. `Matches` covers
  only required `+word` terms, the only kind the service's queries contain when
  every id is non-negative.
  Minimum word length, stopwords, relevance ranking and MySQL's handling of a query
  with no word are not modelled. For the empty attendee set, the model applies the
  documented meaning: the time window alone decides.
- Attendees.MatchesIffSuperset: ids are taken to be non-negative. MySQL's
  full-text parser also ends a word at `-`, so a stored `att_-3` is indexed as
  `att_` and `3`, and in a query `+att_-3` the `-` starts an exclusion. That word
  splitting at non-word characters is not modelled. The public
  `createOrUpdateEvent` and `findEvents` accept negative ids, but the generator
  draws ids of at least 1.
- EventStore.DataAccessService.FindEvents: its contract, through
  `StoredRowsMatch`, holds for the full-text engine only when all ids involved
  are non-negative, for the reason above.
- Store failures other than a duplicate key, a value too long for `attendees` and
  a multi-row result are not modelled (connectivity, timeouts).
- EventStore.DataAccessService.CreateOrUpdateEvent: a MySQL server that is not in
  strict mode cuts a too-long `attendees` value to 128 characters instead of
  refusing it. That truncation is not modelled; the model refuses the value as
  strict mode does.
- EventStore.DataAccessService.constructor: the rows left by earlier runs are
  taken to be rows this service wrote, so they are decodable and fit the column;
  rows put into the table by other means are not modelled.
- The `@Cacheable` existence cache on `hasEvent` is not modelled. `HasEvent` reads
  the table directly.
- `AtomicLong` wrap-around after 2^63 increments is not modelled. The counters are
  unbounded integers.
- The distribution of `ThreadLocalRandom` is not modelled. Draws are
  nondeterministic choices within their bounds.
- The rest of `Application.java` is not modelled: booting, running the DDL, and
  the cache bean. Only the state the table is left in is modelled, by the
  `DataAccessService` constructor. The getters and setters of `Event` and
  `EventAttendee` and all logging are not modelled either.
- EventStore.DataAccessService.FindEvents: returns a set of events rather than a
  list, so the row order of the SQL result, which has no `ORDER BY`, is not modelled.
