/** The `event` table and `DataAccessService`, the only code that reads or writes it. */
module EventStore {
  import opened Wrappers
  import opened Java
  import opened Attendees

  /** One row of the `event` table; its primary key `id` is the table's key. */
  datatype Row = Row(startTime: int, attendees: string)

  /** `domain.Event`, built from one row of a query result. */
  datatype Event = Event(id: int, startTime: int, attendees: string)

  /** The width of the `attendees VARCHAR(128)` column. */
  const AttendeesWidth: nat := 128

  /** Whether a value fits the `attendees` column; MySQL in strict mode refuses
      a longer one with "Data too long for column". */
  predicate Fits(attendees: string) {
    |attendees| <= AttendeesWidth
  }

  /** Every stored `attendees` value is one that serializeAttendees produced,
      and fits the column. */
  predicate WellFormed(table: map<int, Row>) {
    forall id | id in table ::
      && table[id].attendees == SerializeAttendees(DeserializeAttendees(table[id].attendees))
      && Fits(table[id].attendees)
  }

  /** What createOrUpdateEvent leaves in the table: the row for eventId holds the
      new start time and the serialised attendees, whether it existed before or not. */
  function Upsert(table: map<int, Row>, eventId: int, startTime: int, attendees: set<int>): map<int, Row>
  {
    table[eventId := Row(startTime, SerializeAttendees(attendees))]
  }

  /** `DataAccessUtils.singleResult`: null for no row, the row for one, an
      exception for more than one. */
  function SingleResult(rows: seq<Event>): (r: Result<Option<Event>, Exception>)
    ensures r.Success? <==> |rows| <= 1
    ensures r.Success? && r.value.Some? <==> |rows| == 1
    ensures |rows| == 1 ==> r == Success(Some(rows[0]))
    ensures |rows| > 1 ==> r == Failure(IncorrectResultSizeDataAccessException)
  {
    if |rows| == 0 then Success(None)
    else if |rows| == 1 then Success(Some(rows[0]))
    else Failure(IncorrectResultSizeDataAccessException)
  }

  class DataAccessService {
    /** The `event` table, keyed by `id`. */
    var table: map<int, Row>

    ghost predicate Valid()
      reads this
    {
      WellFormed(table)
    }

    /** The service over the `event` table as start-up leaves it: empty after
        `--clean` dropped it, or holding the rows earlier runs wrote, which
        `CREATE TABLE IF NOT EXISTS` keeps. */
    constructor (initial: map<int, Row>)
      requires WellFormed(initial)
      ensures Valid() && table == initial
    {
      table := initial;
    }

    /** The event the row with this id describes. */
    function EventAt(eventId: int): Event
      reads this
      requires eventId in table
    {
      Event(eventId, table[eventId].startTime, table[eventId].attendees)
    }

    /** `SELECT * FROM event WHERE id = ?`. */
    function SelectById(eventId: int): (rows: seq<Event>)
      reads this
      ensures |rows| <= 1
      ensures |rows| == 1 <==> eventId in table
      ensures |rows| == 1 ==> rows[0] == EventAt(eventId)
    {
      if eventId in table then [EventAt(eventId)] else []
    }

    /** `hasEvent`: whether the query by id returned any row. */
    function HasEvent(eventId: int): (found: bool)
      reads this
      ensures found <==> eventId in table
    {
      |SelectById(eventId)| > 0
    }

    /** `getEvent`: the single row with the id, or null. Because `id` is the
        primary key the query never returns two rows, so this never throws. */
    function GetEvent(eventId: int): (r: Result<Option<Event>, Exception>)
      reads this
      ensures r.Success?
      ensures r.value.None? <==> eventId !in table
      ensures r.value.Some? ==> r.value.value == EventAt(eventId)
    {
      SingleResult(SelectById(eventId))
    }

    /** `findEvents`: the events with startTime in [t1, t2] whose attendees
        include every requested attendee. */
    function FindEvents(t1: int, t2: int, attendees: set<int>): (found: set<Event>)
      reads this
      requires Valid()
      ensures forall e :: e in found <==>
        e.id in table && e == EventAt(e.id) && t1 <= e.startTime <= t2 &&
        attendees <= DeserializeAttendees(e.attendees)
    {
      StoredRowsMatch(table, attendees);
      Select(table, t1, t2, AttendeesToQuery(attendees))
    }

    /** `createEvent`: `insert into event values(?, ?, ?)`. A value too long for
        the `attendees` column is refused; otherwise the primary key refuses a
        second row with the same id. */
    method CreateEvent(eventId: int, newStartTime: int, attendees: string) returns (r: Outcome<Exception>)
      modifies this
      ensures !Fits(attendees) ==> r == Fail(DataIntegrityViolationException) && table == old(table)
      ensures Fits(attendees) && eventId in old(table) ==> r == Fail(DuplicateKeyException) && table == old(table)
      ensures Fits(attendees) && eventId !in old(table) ==>
        r == Pass && table == old(table)[eventId := Row(newStartTime, attendees)]
    {
      if !Fits(attendees) {
        r := Fail(DataIntegrityViolationException);
      } else if eventId in table {
        r := Fail(DuplicateKeyException);
      } else {
        table := table[eventId := Row(newStartTime, attendees)];
        r := Pass;
      }
    }

    /** `updateEvent`: `update event set startTime = ?, attendees = ? where id = ?`.
        With no row of that id nothing changes; a value too long for the
        `attendees` column is refused for the row that exists. */
    method UpdateEvent(eventId: int, newStartTime: int, attendees: string) returns (r: Outcome<Exception>)
      modifies this
      ensures eventId !in old(table) ==> r == Pass && table == old(table)
      ensures eventId in old(table) && !Fits(attendees) ==>
        r == Fail(DataIntegrityViolationException) && table == old(table)
      ensures eventId in old(table) && Fits(attendees) ==>
        r == Pass && table == old(table)[eventId := Row(newStartTime, attendees)]
    {
      r := Pass;
      if eventId in table {
        if !Fits(attendees) {
          r := Fail(DataIntegrityViolationException);
        } else {
          table := table[eventId := Row(newStartTime, attendees)];
        }
      }
    }

    /** `createOrUpdateEvent`: inserts the event if the id is new, otherwise
        overwrites its start time and attendees; an attendee set whose text does
        not fit the column is refused either way and changes nothing. */
    method CreateOrUpdateEvent(eventId: int, newStartTime: int, attendees: set<int>) returns (r: Outcome<Exception>)
      requires Valid()
      modifies this
      ensures Valid()
      ensures r.Pass? <==> Fits(SerializeAttendees(attendees))
      ensures r.Fail? ==> r.error == DataIntegrityViolationException && table == old(table)
      ensures r.Pass? ==> table == Upsert(old(table), eventId, newStartTime, attendees)
      ensures r.Pass? ==> HasEvent(eventId)
      ensures r.Pass? ==> GetEvent(eventId) == Success(Some(Event(eventId, newStartTime, SerializeAttendees(attendees))))
    {
      if !HasEvent(eventId) {
        r := CreateEvent(eventId, newStartTime, SerializeAttendees(attendees));
      } else {
        r := UpdateEvent(eventId, newStartTime, SerializeAttendees(attendees));
      }
      if r.Pass? {
        UpsertKeepsWellFormed(old(table), eventId, newStartTime, attendees);
      }
    }
  }

  /** The definition of the SQL filter `findEvents` runs: `select * from event
      where startTime >= ? and startTime <= ? and MATCH(attendees) AGAINST(? IN
      BOOLEAN MODE) > 0`, each row read as an Event. FindEvents' contract is
      proved from it through StoredRowsMatch. */
  function Select(table: map<int, Row>, t1: int, t2: int, query: string): (found: set<Event>)
    ensures forall e :: e in found <==>
      e.id in table && e == Event(e.id, table[e.id].startTime, table[e.id].attendees) &&
      t1 <= e.startTime <= t2 && Matches(e.attendees, query)
  {
    set id | id in table && t1 <= table[id].startTime <= t2 && Matches(table[id].attendees, query) ::
      Event(id, table[id].startTime, table[id].attendees)
  }

  /** Every stored row passes the full-text filter exactly when its attendees
      include all requested ones. */
  lemma StoredRowsMatch(table: map<int, Row>, requested: set<int>)
    requires WellFormed(table)
    ensures forall id | id in table ::
      Matches(table[id].attendees, AttendeesToQuery(requested)) <==>
      requested <= DeserializeAttendees(table[id].attendees)
  {
    forall id | id in table
      ensures Matches(table[id].attendees, AttendeesToQuery(requested)) <==>
              requested <= DeserializeAttendees(table[id].attendees)
    {
      MatchesIffSuperset(DeserializeAttendees(table[id].attendees), requested);
    }
  }

  /** A write createOrUpdateEvent accepts keeps every row decodable, and the
      written row decodes to exactly the given start time and attendees. */
  lemma UpsertKeepsWellFormed(table: map<int, Row>, eventId: int, startTime: int, attendees: set<int>)
    requires WellFormed(table) && Fits(SerializeAttendees(attendees))
    ensures WellFormed(Upsert(table, eventId, startTime, attendees))
    ensures eventId in Upsert(table, eventId, startTime, attendees)
    ensures Upsert(table, eventId, startTime, attendees)[eventId].startTime == startTime
    ensures DeserializeAttendees(Upsert(table, eventId, startTime, attendees)[eventId].attendees) == attendees
  {
    DeserializeSerialize(attendees);
  }

  /** createOrUpdateEvent changes no row but the one it writes. */
  lemma UpsertKeepsOtherRows(table: map<int, Row>, eventId: int, startTime: int, attendees: set<int>)
    ensures Upsert(table, eventId, startTime, attendees).Keys == table.Keys + {eventId}
    ensures forall id | id in table && id != eventId :: Upsert(table, eventId, startTime, attendees)[id] == table[id]
  {
  }

  /** Writing the same event twice in a row leaves the table as writing it once. */
  lemma UpsertIdempotent(table: map<int, Row>, eventId: int, startTime: int, attendees: set<int>)
    ensures Upsert(Upsert(table, eventId, startTime, attendees), eventId, startTime, attendees)
         == Upsert(table, eventId, startTime, attendees)
  {
  }

  /** A later write to the same id replaces both the start time and the whole
      attendee set of an earlier one. */
  lemma UpsertOverwrites(table: map<int, Row>, eventId: int, t1: int, a1: set<int>, t2: int, a2: set<int>)
    ensures Upsert(Upsert(table, eventId, t1, a1), eventId, t2, a2) == Upsert(table, eventId, t2, a2)
    ensures DeserializeAttendees(Upsert(Upsert(table, eventId, t1, a1), eventId, t2, a2)[eventId].attendees) == a2
  {
    DeserializeSerialize(a2);
  }

  /** An event stored with attendees {1, 3, 4, 6} at 12030 is found by a search
      over [100, 15000] for attendees {3, 6}. */
  lemma FindsStoredEvent(svc: DataAccessService)
    requires svc.Valid()
    requires 123 in svc.table && svc.table[123] == Row(12030, SerializeAttendees({1, 3, 4, 6}))
    ensures svc.EventAt(123) in svc.FindEvents(100, 15000, {3, 6})
  {
    DeserializeSerialize({1, 3, 4, 6});
  }
}
