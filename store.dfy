/** The appointment handlers over an in-memory `appointments` table: add,
    update, list, details and delete, with the responses they send. */
module Scheduling {
  import opened Calendar
  import opened Booking

  /** The JSON fields of an add or update request. */
  datatype Request = Request(
    date: string,
    timeFrom: string,
    timeTo: string,
    firstName: string,
    lastName: string,
    title: string)

  /** What a response says, one category per message of the handlers. */
  datatype Category =
    | Added                   // "You added a new record!"
    | Changed                 // "You updated a record"
    | Removed                 // "You deleted a record"
    | Details                 // the record itself
    | Listing                 // the records of a date range
    | Rejected(reason: Reason)
    | Conflict                // "There is a conflict between your schedule"
    | NotFound                // "record cannot be found!", "record not found", ...

  datatype Response = Response(status: nat, category: Category)

  /** The HTTP status each category is sent with. A string the parsers cannot
      read escapes the handler as an exception, which the server answers 500. */
  function StatusOf(c: Category): (status: nat)
    ensures 200 <= status < 600
    ensures status < 300 <==> !(c.Rejected? || c.Conflict? || c.NotFound?)
    ensures status == 500 <==> c == Rejected(Unparseable)
  {
    match c
    case Added => 201
    case Changed => 202
    case Removed => 202
    case Details => 200
    case Listing => 200
    case Rejected(r) => if r == Unparseable then 500 else 406
    case Conflict => 409
    case NotFound => 404
  }

  function Reply(c: Category): Response
  {
    Response(StatusOf(c), c)
  }

  /** Rows of a listing come in ascending order of start; rows with the same
      start come in ascending order of id. */
  predicate Before(a: Appointment, b: Appointment)
  {
    a.start < b.start || (a.start == b.start && a.id < b.id)
  }

  predicate InStartOrder(rows: seq<Appointment>)
  {
    forall i, j :: 0 <= i < j < |rows| ==> Before(rows[i], rows[j])
  }

  /** Puts `a`, whose id is above every id in `rows`, into its place in start order. */
  method InsertInOrder(rows: seq<Appointment>, a: Appointment) returns (out: seq<Appointment>)
    requires InStartOrder(rows)
    requires forall i :: 0 <= i < |rows| ==> rows[i].id < a.id
    ensures InStartOrder(out)
    ensures |out| == |rows| + 1
    ensures forall x :: x in out <==> x in rows || x == a
  {
    var k := |rows|;
    while k > 0 && rows[k - 1].start > a.start
      invariant 0 <= k <= |rows|
      invariant forall i :: k <= i < |rows| ==> rows[i].start > a.start
    {
      k := k - 1;
    }
    out := rows[..k] + [a] + rows[k..];
    assert forall i :: 0 <= i < k ==> out[i] == rows[i];
    assert out[k] == a;
    assert forall i :: k < i < |out| ==> out[i] == rows[i - 1];
    forall i | 0 <= i < k
      ensures Before(rows[i], a)
    {
      if i < k - 1 {
        assert Before(rows[i], rows[k - 1]);
      }
    }
  }

  /** The bounds of a listing: from 09:00 on `dateFrom` to 17:00 on `dateTo`,
      a blank bound meaning the date of clock reading `clock` (in microseconds);
      None where a bound cannot be read. */
  function ListWindow(dateFrom: string, dateTo: string, clock: nat): (w: Option<(nat, nat)>)
    ensures w.None? <==> (dateFrom != "" && ParseDate(dateFrom).None?) || (dateTo != "" && ParseDate(dateTo).None?)
    ensures w.Some? ==> TimeOf(w.value.0) == OPENING && TimeOf(w.value.1) == CLOSING
    ensures w.Some? ==> DayOf(w.value.0) == (if dateFrom == "" then DateOfReading(clock) else ParseDate(dateFrom).value)
    ensures w.Some? ==> DayOf(w.value.1) == (if dateTo == "" then DateOfReading(clock) else ParseDate(dateTo).value)
  {
    var today := DateOfReading(clock);
    var first := if dateFrom == "" then Some(today) else ParseDate(dateFrom);
    var last := if dateTo == "" then Some(today) else ParseDate(dateTo);
    if first.Some? && last.Some?
    then
      StampParts(first.value, OPENING);
      StampParts(last.value, CLOSING);
      Some((Stamp(first.value, OPENING), Stamp(last.value, CLOSING)))
    else None
  }

  /** With both bounds blank, a listing covers the opening hours of the day the
      clock reading falls on, and nothing from any other day. */
  lemma BlankBoundsMeanToday(clock: nat, s: nat)
    ensures ListWindow("", "", clock).Some?
    ensures var (lo, hi) := ListWindow("", "", clock).value;
            lo <= s <= hi ==> DayOf(s) == DateOfReading(clock) && TimeOf(s) >= OPENING && TimeOf(s) <= CLOSING
  {
    var (lo, hi) := ListWindow("", "", clock).value;
    var day := DateOfReading(clock);
    if lo <= s <= hi {
      assert Stamp(day, 0) <= s < Stamp(day, 0) + SECONDS_PER_DAY;
      var t: TimeOfDay := s - Stamp(day, 0);
      assert s == Stamp(day, t);
      StampParts(day, t);
    }
  }

  /** In the last microsecond of a day, the past test already compares with the
      next whole second, while a blank listing bound is still that day. */
  lemma LastMicrosecondOfDay(day: nat)
    ensures var clock := Stamp(day + 1, 0) * MICROS_PER_SECOND - 1;
            && SecondsUp(clock) == Stamp(day + 1, 0)
            && DateOfReading(clock) == day
            && ListWindow("", "", clock) == Some((Stamp(day, OPENING), Stamp(day, CLOSING)))
  {
  }

  /** The appointments table, with the counter the next id is taken from. */
  class Store {
    var table: Table
    var nextId: nat

    /** Ids are keys below the counter; every stored appointment passed the
        validator (Monday to Saturday, 09:00-17:00, start <= end); and no two
        stored appointments intersect. */
    ghost predicate Valid()
      reads this
      ensures Valid() ==> nextId !in table && 0 !in table
    {
      1 <= nextId
      && (forall id :: id in table ==> 1 <= id < nextId && table[id].id == id)
      && (forall id :: id in table ==> Admissible(table[id].start, table[id].end))
      && NoOverlap(table)
    }

    constructor ()
      ensures Valid()
      ensures table == map[] && nextId == 1
    {
      table := map[];
      nextId := 1;
    }

    /** The scan over all rows, in id order, that stops at the first row other
        than `exclude` whose interval intersects [start, end). */
    method FindConflict(start: nat, end: nat, exclude: Option<nat>) returns (hit: Option<nat>)
      requires Valid()
      ensures hit.None? <==> !HasConflict(table, start, end, exclude)
      ensures hit.Some? ==> hit.value in table && Some(hit.value) != exclude
                            && Intersects(table[hit.value].start, table[hit.value].end, start, end)
      ensures hit.Some? ==> forall id :: id in table && id < hit.value && Some(id) != exclude
                                         ==> !Intersects(table[id].start, table[id].end, start, end)
    {
      var id := 1;
      while id < nextId
        invariant 1 <= id <= nextId
        invariant forall k :: k in table && k < id && Some(k) != exclude
                              ==> !Intersects(table[k].start, table[k].end, start, end)
      {
        if id in table && Intersects(table[id].start, table[id].end, start, end) {
          if Some(id) != exclude {
            return Some(id);
          }
        }
        id := id + 1;
      }
      return None;
    }

    /** POST /add_appointments, with the clock reading `clock` in microseconds;
        the past test compares it, rounded up to a whole second, with the start. */
    method Add(req: Request, clock: nat) returns (resp: Response)
      requires Valid()
      modifies this
      ensures Valid()
      ensures match Validate(MinutesOnly, req.date, req.timeFrom, req.timeTo, SecondsUp(clock))
              case Reject(why) =>
                resp == Reply(Rejected(why)) && table == old(table) && nextId == old(nextId)
              case Accept(s, e) =>
                if HasConflict(old(table), s, e, None) then
                  resp == Reply(Conflict) && table == old(table) && nextId == old(nextId)
                else
                  && resp == Reply(Added)
                  && old(nextId) !in old(table)
                  && table == old(table)[old(nextId) := Appointment(old(nextId), req.firstName, req.lastName, req.title, s, e)]
                  && nextId == old(nextId) + 1
    {
      var v := Validate(MinutesOnly, req.date, req.timeFrom, req.timeTo, SecondsUp(clock));
      if v.Reject? {
        return Reply(Rejected(v.reason));
      }
      var hit := FindConflict(v.start, v.end, None);
      if hit.Some? {
        return Reply(Conflict);
      }
      var a := Appointment(nextId, req.firstName, req.lastName, req.title, v.start, v.end);
      InsertKeepsNoOverlap(table, a);
      table := table[nextId := a];
      nextId := nextId + 1;
      resp := Reply(Added);
    }

    /** PUT /update_appointments/<id>, with the clock reading as for Add. */
    method Update(id: nat, req: Request, clock: nat) returns (resp: Response)
      requires Valid()
      modifies this
      ensures Valid()
      ensures nextId == old(nextId)
      ensures id !in old(table) ==> resp == Reply(NotFound) && table == old(table)
      ensures id in old(table) ==>
              match Validate(SecondsThenMinutes, req.date, req.timeFrom, req.timeTo, SecondsUp(clock))
              case Reject(why) =>
                resp == Reply(Rejected(why)) && table == old(table)
              case Accept(s, e) =>
                if HasConflict(old(table), s, e, Some(id)) then
                  resp == Reply(Conflict) && table == old(table)
                else
                  resp == Reply(Changed)
                  && table == old(table)[id := Appointment(id, req.firstName, req.lastName, req.title, s, e)]
    {
      if id !in table {
        return Reply(NotFound);
      }
      var v := Validate(SecondsThenMinutes, req.date, req.timeFrom, req.timeTo, SecondsUp(clock));
      if v.Reject? {
        return Reply(Rejected(v.reason));
      }
      var hit := FindConflict(v.start, v.end, Some(id));
      if hit.Some? {
        return Reply(Conflict);
      }
      var a := Appointment(id, req.firstName, req.lastName, req.title, v.start, v.end);
      OverwriteKeepsNoOverlap(table, a);
      table := table[id := a];
      resp := Reply(Changed);
    }

    /** The query of the listing: the rows whose start lies in [lo, hi],
        ascending by start. */
    method Select(lo: nat, hi: nat) returns (rows: seq<Appointment>)
      requires Valid()
      ensures InStartOrder(rows)
      ensures forall i :: 0 <= i < |rows| ==>
                rows[i].id in table && table[rows[i].id] == rows[i] && lo <= rows[i].start <= hi
      ensures forall id :: id in table && lo <= table[id].start <= hi ==> table[id] in rows
    {
      rows := [];
      var id := 1;
      while id < nextId
        invariant 1 <= id <= nextId
        invariant InStartOrder(rows)
        invariant forall x :: x in rows ==>
                    x.id < id && x.id in table && table[x.id] == x && lo <= x.start <= hi
        invariant forall k :: 1 <= k < id && k in table && lo <= table[k].start <= hi ==> table[k] in rows
      {
        if id in table && lo <= table[id].start <= hi {
          assert forall i :: 0 <= i < |rows| ==> rows[i] in rows;
          rows := InsertInOrder(rows, table[id]);
        }
        id := id + 1;
      }
      assert forall i :: 0 <= i < |rows| ==> rows[i] in rows;
    }

    /** POST /show_appointments, with the clock reading `clock` in microseconds. */
    method List(dateFrom: string, dateTo: string, clock: nat) returns (resp: Response, rows: seq<Appointment>)
      requires Valid()
      ensures ListWindow(dateFrom, dateTo, clock).None? ==> resp == Reply(Rejected(Unparseable)) && rows == []
      ensures ListWindow(dateFrom, dateTo, clock).Some? ==>
              var (lo, hi) := ListWindow(dateFrom, dateTo, clock).value;
              && resp == Reply(Listing)
              && InStartOrder(rows)
              && (forall i :: 0 <= i < |rows| ==>
                    rows[i].id in table && table[rows[i].id] == rows[i] && lo <= rows[i].start <= hi)
              && (forall id :: id in table && lo <= table[id].start <= hi ==> table[id] in rows)
    {
      var window := ListWindow(dateFrom, dateTo, clock);
      if window.None? {
        return Reply(Rejected(Unparseable)), [];
      }
      rows := Select(window.value.0, window.value.1);
      resp := Reply(Listing);
    }

    /** GET /appointment_details/<id>. */
    method Get(id: nat) returns (resp: Response, record: Option<Appointment>)
      requires Valid()
      ensures id in table ==> resp == Reply(Details) && record == Some(table[id])
      ensures id !in table ==> resp == Reply(NotFound) && record == None
    {
      if id in table {
        return Reply(Details), Some(table[id]);
      }
      return Reply(NotFound), None;
    }

    /** DELETE /delete_appointments/<id>. */
    method Delete(id: nat) returns (resp: Response)
      requires Valid()
      modifies this
      ensures Valid()
      ensures nextId == old(nextId)
      ensures id in old(table) ==> resp == Reply(Removed) && table == old(table) - {id}
      ensures id !in old(table) ==> resp == Reply(NotFound) && table == old(table)
    {
      if id !in table {
        return Reply(NotFound);
      }
      table := table - {id};
      resp := Reply(Removed);
    }
  }
}
