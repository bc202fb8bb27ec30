/** `EventProcessor`: the writer and reader loop bodies, the stripe locks the
    writers take, the throughput counters and the rate-logging tick, each run as
    one sequential step. */
module Processor {
  import opened Wrappers
  import opened Java
  import opened Random
  import opened Attendees
  import opened EventStore

  /** The attendee set a writer or a reader draws: a `for` loop whose bound is
      drawn again before every pass, adding one random id per pass. */
  method RandomAttendees(maxEventAttendees: int, maxAttendeeId: int) returns (r: Result<set<int>, Exception>)
    requires IsInt(maxEventAttendees) && IsInt(maxAttendeeId)
    ensures r.Success? <==> IsDrawBound(maxEventAttendees) && IsDrawBound(maxAttendeeId)
    ensures r.Failure? ==> r.error == IllegalArgumentException
    ensures r.Success? ==> 1 <= |r.value| <= maxEventAttendees
    ensures r.Success? ==> forall a | a in r.value :: 1 <= a <= maxAttendeeId
  {
    var attendees: set<int> := {};
    var i := 0;
    var count := GetRandom(maxEventAttendees);
    if count.Failure? {
      return Failure(count.error);
    }
    while i < count.value
      invariant count.Success? && 1 <= count.value <= maxEventAttendees
      invariant 0 <= i <= maxEventAttendees
      invariant |attendees| <= i
      invariant i > 0 ==> attendees != {} && IsDrawBound(maxAttendeeId)
      invariant forall a | a in attendees :: 1 <= a <= maxAttendeeId
      decreases maxEventAttendees - i
    {
      var attendee := GetRandom(maxAttendeeId);
      if attendee.Failure? {
        return Failure(attendee.error);
      }
      attendees := attendees + {attendee.value};
      i := i + 1;
      count := GetRandom(maxEventAttendees);
    }
    return Success(attendees);
  }

  /** The reader's search window: t1 in [1, maxTime - 1], then t2 in [t1 + 1, maxTime]. */
  method RandomTimeRange(maxTime: int) returns (r: Result<(int, int), Exception>)
    requires IsInt(maxTime)
    ensures r.Success? <==> 2 <= maxTime < IntMax
    ensures r.Failure? ==> r.error == IllegalArgumentException
    ensures r.Success? ==> 1 <= r.value.0 < r.value.1 <= maxTime
  {
    var t1 := GetRandom(Sub(maxTime, 1));
    if t1.Failure? {
      return Failure(t1.error);
    }
    var t2 := GetRandomFrom(Add(t1.value, 1), maxTime);
    if t2.Failure? {
      return Failure(t2.error);
    }
    return Success((t1.value, t2.value));
  }

  /** How `Writer.iteration` ended: it wrote the event (returned true), found the
      event's stripe locked and skipped it (returned false), had the write refused
      by the store, threw while drawing inside the locked section, or threw while
      drawing the event id. */
  datatype WriteAttempt =
    | Written(eventId: int, startTime: int, attendees: set<int>)
    | Skipped(eventId: int)
    | Refused(eventId: int, startTime: int, attendees: set<int>, error: Exception)
    | ThrownLocked(eventId: int, error: Exception)
    | Thrown(error: Exception)

  /** One reader search: its window, the attendees asked for and what it found. */
  datatype Search = Search(t1: int, t2: int, attendees: set<int>, found: set<Event>)

  /** The two figures one rate log record reports. */
  datatype RateReport = RateReport(writesPerSecond: int, readsPerSecond: int)

  class EventProcessor {
    const writersCount: int
    const readersCount: int
    const logEvery: int
    const maxEventCount: int
    const maxTime: int
    const maxAttendeeId: int
    const maxEventAttendees: int

    var writesCounter: int
    var readsCounter: int
    var writesInPeriod: int
    var readsInPeriod: int

    /** `Striped.lock(writersCount * 2)`: whether each stripe's lock is held. */
    const locks: array<bool>
    /** The hash `Striped` spreads a key with before picking its stripe. */
    const stripeHash: int -> int
    const dataAccessService: DataAccessService

    ghost predicate Valid()
      reads this, dataAccessService
    {
      && IsInt(writersCount) && IsInt(readersCount) && IsInt(logEvery) && IsInt(maxEventCount)
      && IsInt(maxTime) && IsInt(maxAttendeeId) && IsInt(maxEventAttendees)
      && locks.Length == Mul(writersCount, 2) > 0
      && dataAccessService.Valid()
    }

    /** The stripe whose lock `locks.get(key)` returns. */
    function Stripe(key: int): int
      reads this
      requires locks.Length > 0
    {
      stripeHash(key) % locks.Length
    }

    /** The bounds under which every draw of a writer's locked section succeeds. */
    predicate WriteDrawsValid()
      reads this
    {
      IsDrawBound(maxTime) && IsDrawBound(maxEventAttendees) && IsDrawBound(maxAttendeeId)
    }

    /** The processor with its counters at zero and every stripe lock free; only
        Start builds one, once the stripe count is known to be positive. */
    constructor (writersCount: int, readersCount: int, logEvery: int, maxEventCount: int, maxTime: int,
                 maxAttendeeId: int, maxEventAttendees: int,
                 stripeHash: int -> int, dataAccessService: DataAccessService)
      requires IsInt(writersCount) && IsInt(readersCount) && IsInt(logEvery) && IsInt(maxEventCount)
      requires IsInt(maxTime) && IsInt(maxAttendeeId) && IsInt(maxEventAttendees)
      requires Mul(writersCount, 2) > 0
      requires dataAccessService.Valid()
      ensures Valid() && fresh(locks)
      ensures this.writersCount == writersCount && this.readersCount == readersCount
      ensures this.logEvery == logEvery && this.maxEventCount == maxEventCount && this.maxTime == maxTime
      ensures this.maxAttendeeId == maxAttendeeId && this.maxEventAttendees == maxEventAttendees
      ensures this.dataAccessService == dataAccessService && this.stripeHash == stripeHash
      ensures writesCounter == readsCounter == writesInPeriod == readsInPeriod == 0
      ensures forall i | 0 <= i < locks.Length :: !locks[i]
    {
      this.writersCount := writersCount;
      this.readersCount := readersCount;
      this.logEvery := logEvery;
      this.maxEventCount := maxEventCount;
      this.maxTime := maxTime;
      this.maxAttendeeId := maxAttendeeId;
      this.maxEventAttendees := maxEventAttendees;
      this.stripeHash := stripeHash;
      this.dataAccessService := dataAccessService;
      locks := new bool[Mul(writersCount, 2)](_ => false);
      writesCounter, readsCounter, writesInPeriod, readsInPeriod := 0, 0, 0, 0;
    }

    /** `start()` up to starting the workers: `Striped.lock(writersCount * 2)`,
        `Executors.newFixedThreadPool(writersCount)` and
        `Executors.newFixedThreadPool(readersCount)` each refuse a count that is
        not positive, so start-up fails before any worker runs. */
    static method Start(writersCount: int, readersCount: int, logEvery: int, maxEventCount: int, maxTime: int,
                        maxAttendeeId: int, maxEventAttendees: int,
                        stripeHash: int -> int, dataAccessService: DataAccessService)
      returns (r: Result<EventProcessor, Exception>)
      requires IsInt(writersCount) && IsInt(readersCount) && IsInt(logEvery) && IsInt(maxEventCount)
      requires IsInt(maxTime) && IsInt(maxAttendeeId) && IsInt(maxEventAttendees)
      requires dataAccessService.Valid()
      ensures r.Failure? <==> Mul(writersCount, 2) <= 0 || writersCount <= 0 || readersCount <= 0
      ensures r.Failure? ==> r.error == IllegalArgumentException
      ensures r.Success? ==>
        && fresh(r.value) && fresh(r.value.locks) && r.value.Valid()
        && r.value.locks.Length == Mul(writersCount, 2)
        && r.value.writersCount == writersCount && r.value.readersCount == readersCount
        && r.value.logEvery == logEvery && r.value.maxEventCount == maxEventCount
        && r.value.maxTime == maxTime && r.value.maxAttendeeId == maxAttendeeId
        && r.value.maxEventAttendees == maxEventAttendees
        && r.value.stripeHash == stripeHash && r.value.dataAccessService == dataAccessService
        && r.value.writesCounter == r.value.readsCounter == 0
        && r.value.writesInPeriod == r.value.readsInPeriod == 0
        && (forall i | 0 <= i < r.value.locks.Length :: !r.value.locks[i])
    {
      if Mul(writersCount, 2) <= 0 {
        return Failure(IllegalArgumentException);
      }
      if writersCount <= 0 {
        return Failure(IllegalArgumentException);
      }
      if readersCount <= 0 {
        return Failure(IllegalArgumentException);
      }
      var processor := new EventProcessor(writersCount, readersCount, logEvery, maxEventCount, maxTime,
                                          maxAttendeeId, maxEventAttendees, stripeHash, dataAccessService);
      r := Success(processor);
    }

    /** `Writer.iteration`: draw an event id; if its stripe lock is free, take it,
        draw a start time and attendees, write the event, and release the lock
        on every way out of the locked section. */
    method Iteration() returns (r: WriteAttempt)
      requires Valid()
      modifies locks, dataAccessService
      ensures Valid()
      ensures locks[..] == old(locks[..])
      ensures r.Thrown? <==> !IsDrawBound(maxEventCount)
      ensures r.Thrown? ==> r.error == IllegalArgumentException
      ensures !r.Thrown? ==> 1 <= r.eventId <= maxEventCount
      ensures !r.Thrown? ==> (r.Skipped? <==> old(locks[Stripe(r.eventId)]))
      ensures !r.Thrown? && !r.Skipped? ==> (r.ThrownLocked? <==> !WriteDrawsValid())
      ensures r.ThrownLocked? ==> r.error == IllegalArgumentException
      ensures r.Written? || r.Refused? ==>
        && 1 <= r.startTime <= maxTime
        && 1 <= |r.attendees| <= maxEventAttendees
        && (forall a | a in r.attendees :: 1 <= a <= maxAttendeeId)
      ensures r.Written? ==> Fits(SerializeAttendees(r.attendees))
      ensures r.Written? ==>
        dataAccessService.table == Upsert(old(dataAccessService.table), r.eventId, r.startTime, r.attendees)
      ensures r.Refused? ==> r.error == DataIntegrityViolationException && !Fits(SerializeAttendees(r.attendees))
      ensures !r.Written? ==> dataAccessService.table == old(dataAccessService.table)
    {
      var eventId := GetRandom(maxEventCount);
      if eventId.Failure? {
        return Thrown(eventId.error);
      }
      var stripe := Stripe(eventId.value);
      if locks[stripe] {
        return Skipped(eventId.value);
      }
      locks[stripe] := true;
      var newStartTime := GetRandom(maxTime);
      if newStartTime.Failure? {
        r := ThrownLocked(eventId.value, newStartTime.error);
      } else {
        var attendees := RandomAttendees(maxEventAttendees, maxAttendeeId);
        if attendees.Failure? {
          r := ThrownLocked(eventId.value, attendees.error);
        } else {
          var written := dataAccessService.CreateOrUpdateEvent(eventId.value, newStartTime.value, attendees.value);
          if written.Fail? {
            r := Refused(eventId.value, newStartTime.value, attendees.value, written.error);
          } else {
            r := Written(eventId.value, newStartTime.value, attendees.value);
          }
        }
      }
      locks[stripe] := false;
    }

    /** One pass of `Writer.run`'s loop: an iteration, counted if it wrote. */
    method WriterPass() returns (r: WriteAttempt)
      requires Valid()
      modifies this`writesCounter, locks, dataAccessService
      ensures Valid()
      ensures locks[..] == old(locks[..])
      ensures r.Written? ==> !old(locks[Stripe(r.eventId)])
      ensures r.Skipped? ==> old(locks[Stripe(r.eventId)])
      ensures r.Written? ==>
        dataAccessService.table == Upsert(old(dataAccessService.table), r.eventId, r.startTime, r.attendees)
      ensures !r.Written? ==> dataAccessService.table == old(dataAccessService.table)
      ensures writesCounter == old(writesCounter) + (if r.Written? then 1 else 0)
    {
      r := Iteration();
      if r.Written? {
        writesCounter := writesCounter + 1;
      }
    }

    /** One pass of `Reader.run`'s loop: a random window and attendee set, a
        search, and one more read counted whatever the search found. */
    method ReaderPass() returns (r: Result<Search, Exception>)
      requires Valid()
      modifies this`readsCounter
      ensures Valid()
      ensures r.Success? <==> 2 <= maxTime < IntMax && IsDrawBound(maxEventAttendees) && IsDrawBound(maxAttendeeId)
      ensures r.Failure? ==> r.error == IllegalArgumentException
      ensures r.Success? ==>
        && 1 <= r.value.t1 < r.value.t2 <= maxTime
        && 1 <= |r.value.attendees| <= maxEventAttendees
        && (forall a | a in r.value.attendees :: 1 <= a <= maxAttendeeId)
        && r.value.found == dataAccessService.FindEvents(r.value.t1, r.value.t2, r.value.attendees)
      ensures readsCounter == old(readsCounter) + (if r.Success? then 1 else 0)
    {
      var range := RandomTimeRange(maxTime);
      if range.Failure? {
        return Failure(range.error);
      }
      var (t1, t2) := range.value;
      var attendees := RandomAttendees(maxEventAttendees, maxAttendeeId);
      if attendees.Failure? {
        return Failure(attendees.error);
      }
      var events := dataAccessService.FindEvents(t1, t2, attendees.value);
      readsCounter := readsCounter + 1;
      r := Success(Search(t1, t2, attendees.value, events));
    }

    /** One tick of `startRateLog`'s loop. `writesCnt` and `readsCnt` are the
        baselines the previous tick left (the counters when logging began, for
        the first tick); the new baselines come back with the report. */
    method RateTick(writesCnt: int, readsCnt: int) returns (r: Result<RateReport, Exception>, newWritesCnt: int, newReadsCnt: int)
      requires Valid()
      modifies this`writesInPeriod, this`readsInPeriod
      ensures Valid()
      ensures Mul(logEvery, 1000) < 0 ==>
        r == Failure(IllegalArgumentException) && writesInPeriod == old(writesInPeriod) && readsInPeriod == old(readsInPeriod)
      ensures Mul(logEvery, 1000) >= 0 ==>
        && writesInPeriod == writesCounter - writesCnt && readsInPeriod == readsCounter - readsCnt
        && newWritesCnt == writesCounter && newReadsCnt == readsCounter
      ensures r.Success? <==> Mul(logEvery, 1000) >= 0 && logEvery != 0
      ensures Mul(logEvery, 1000) >= 0 && logEvery == 0 ==> r == Failure(ArithmeticException)
      ensures r.Success? ==> r.value == RateReport(Div(writesInPeriod, logEvery), Div(readsInPeriod, logEvery))
    {
      newWritesCnt, newReadsCnt := writesCnt, readsCnt;
      if Mul(logEvery, 1000) < 0 {
        return Failure(IllegalArgumentException), newWritesCnt, newReadsCnt;
      }
      writesInPeriod := writesCounter - writesCnt;
      readsInPeriod := readsCounter - readsCnt;
      newWritesCnt := writesCounter;
      newReadsCnt := readsCounter;
      if logEvery == 0 {
        return Failure(ArithmeticException), newWritesCnt, newReadsCnt;
      }
      r := Success(RateReport(Div(writesInPeriod, logEvery), Div(readsInPeriod, logEvery)));
    }

    /** `startRateLog` over `|samples|` ticks. The baselines are the counters
        when logging begins; during the k-th sleep the workers bring the
        counters to `samples[k]`. Returns the `writesInPeriod` and
        `readsInPeriod` each tick sets. */
    method RateLog(samples: seq<(int, int)>) returns (r: Outcome<Exception>, writeDeltas: seq<int>, readDeltas: seq<int>)
      requires Valid()
      modifies this`writesCounter, this`readsCounter, this`writesInPeriod, this`readsInPeriod
      ensures Valid()
      ensures r.Pass? <==> samples == [] || (Mul(logEvery, 1000) >= 0 && logEvery != 0)
      ensures r.Pass? ==>
        && writeDeltas == TickDeltas(old(writesCounter), Writes(samples))
        && readDeltas == TickDeltas(old(readsCounter), Reads(samples))
      ensures r.Fail? ==> writeDeltas == [] && readDeltas == []
    {
      var writesCnt, readsCnt := writesCounter, readsCounter;
      ghost var writes0, reads0 := writesCounter, readsCounter;
      writeDeltas, readDeltas := [], [];
      var k := 0;
      while k < |samples|
        invariant 0 <= k <= |samples|
        invariant Valid()
        invariant writeDeltas == TickDeltas(writes0, Writes(samples)[..k])
        invariant readDeltas == TickDeltas(reads0, Reads(samples)[..k])
        invariant writesCnt == if k == 0 then writes0 else samples[k - 1].0
        invariant readsCnt == if k == 0 then reads0 else samples[k - 1].1
        invariant k > 0 ==> Mul(logEvery, 1000) >= 0 && logEvery != 0
      {
        writesCounter, readsCounter := samples[k].0, samples[k].1;
        var tick;
        tick, writesCnt, readsCnt := RateTick(writesCnt, readsCnt);
        if tick.Failure? {
          return Fail(tick.error), [], [];
        }
        TickDeltasSnoc(writes0, Writes(samples)[..k], samples[k].0);
        TickDeltasSnoc(reads0, Reads(samples)[..k], samples[k].1);
        assert Writes(samples)[..k + 1] == Writes(samples)[..k] + [samples[k].0];
        assert Reads(samples)[..k + 1] == Reads(samples)[..k] + [samples[k].1];
        writeDeltas, readDeltas := writeDeltas + [writesInPeriod], readDeltas + [readsInPeriod];
        k := k + 1;
      }
      assert Writes(samples)[..k] == Writes(samples) && Reads(samples)[..k] == Reads(samples);
      r := Pass;
    }
  }

  /** The writes counter at each sample. */
  function Writes(samples: seq<(int, int)>): (xs: seq<int>)
    ensures |xs| == |samples| && forall i | 0 <= i < |samples| :: xs[i] == samples[i].0
  {
    seq(|samples|, i requires 0 <= i < |samples| => samples[i].0)
  }

  /** The reads counter at each sample. */
  function Reads(samples: seq<(int, int)>): (xs: seq<int>)
    ensures |xs| == |samples| && forall i | 0 <= i < |samples| :: xs[i] == samples[i].1
  {
    seq(|samples|, i requires 0 <= i < |samples| => samples[i].1)
  }

  /** What successive ticks report as a counter's increase when the counter
      reads `samples` at them, starting from `baseline`. */
  function TickDeltas(baseline: int, samples: seq<int>): (deltas: seq<int>)
    ensures |deltas| == |samples|
    decreases samples
  {
    if samples == [] then [] else [samples[0] - baseline] + TickDeltas(samples[0], samples[1..])
  }

  function Sum(xs: seq<int>): int {
    if xs == [] then 0 else xs[0] + Sum(xs[1..])
  }

  /** The increases reported over successive ticks add up to the counter's total
      increase since logging began: no increment is lost or counted twice. */
  lemma {:induction false} TickDeltasTelescope(baseline: int, samples: seq<int>)
    requires |samples| > 0
    ensures Sum(TickDeltas(baseline, samples)) == samples[|samples| - 1] - baseline
    decreases samples
  {
    if |samples| > 1 {
      TickDeltasTelescope(samples[0], samples[1..]);
    }
  }

  /** A counter that only grows between ticks is never reported as shrinking. */
  lemma {:induction false} TickDeltasNonNegative(baseline: int, samples: seq<int>)
    requires |samples| > 0 ==> baseline <= samples[0]
    requires forall i | 0 < i < |samples| :: samples[i - 1] <= samples[i]
    ensures forall i | 0 <= i < |samples| :: TickDeltas(baseline, samples)[i] >= 0
    decreases samples
  {
    if |samples| > 0 {
      var rest := samples[1..];
      assert forall i | 0 < i < |rest| :: rest[i - 1] == samples[i] && rest[i] == samples[i + 1];
      TickDeltasNonNegative(samples[0], rest);
      forall i | 0 <= i < |samples|
        ensures TickDeltas(baseline, samples)[i] >= 0
      {
        if i > 0 {
          assert TickDeltas(baseline, samples)[i] == TickDeltas(samples[0], samples[1..])[i - 1];
        }
      }
    }
  }

  /** One more tick reports the new sample minus the previous one (the
      baseline, for the first tick). */
  lemma {:induction false} TickDeltasSnoc(baseline: int, samples: seq<int>, x: int)
    ensures TickDeltas(baseline, samples + [x])
         == TickDeltas(baseline, samples) + [x - (if samples == [] then baseline else samples[|samples| - 1])]
    decreases samples
  {
    if samples != [] {
      assert (samples + [x])[0] == samples[0];
      assert (samples + [x])[1..] == samples[1..] + [x];
      TickDeltasSnoc(samples[0], samples[1..], x);
    }
  }
}
