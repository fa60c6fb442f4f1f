/** The booking rules of the add and update handlers: the validator, which
    turns the submitted `date`, `time_from` and `time_to` into an interval or a
    rejection, and the intersection rule the conflict check applies. */
module Booking {
  import opened Calendar

  /** Opening hours: 09:00 to 17:00 on the booked day. */
  const OPENING: TimeOfDay := 9 * 3600
  const CLOSING: TimeOfDay := 17 * 3600

  /** One row of the `appointments` table. `start` and `end` are timestamps
      (`date_time_from`, `date_time_to`). */
  datatype Appointment = Appointment(
    id: nat,
    firstName: string,
    lastName: string,
    title: string,
    start: nat,
    end: nat)

  /** Why a submitted booking is refused before the conflict check. */
  datatype Reason =
    | Blank          // "date and time cannot be blank"
    | Unparseable    // a string strptime cannot read
    | Past           // "Any booking for the past dates or time ...": past or inverted
    | ClosedDay      // "only allowed from Monday to Saturday"
    | OutsideHours   // "only allowed from 9:00AM - 5:00PM"

  datatype Verdict = Accept(start: nat, end: nat) | Reject(reason: Reason)

  /** The two time formats of the handlers: the add handler reads `HH:MM` only;
      the update handler tries `HH:MM:SS` for both times, then `HH:MM` for both. */
  datatype TimeFormat = MinutesOnly | SecondsThenMinutes

  /** A parsed booking request: one day and two times of day on it. */
  datatype Slot = Slot(day: nat, from: TimeOfDay, to: TimeOfDay) {
    function Start(): nat { Stamp(day, from) }
    function End(): nat { Stamp(day, to) }
  }

  /** What every accepted interval satisfies: it starts no later than it ends and
      lies inside the opening hours of one day that is not a Sunday. */
  predicate Admissible(start: nat, end: nat)
  {
    var d := DayOf(start);
    Weekday(d) != SUNDAY && Stamp(d, OPENING) <= start && start <= end && end <= Stamp(d, CLOSING)
  }

  /** The booking rules as one condition, independent of the order they are checked in. */
  predicate Bookable(slot: Slot, now: nat)
  {
    now <= slot.Start() && slot.from <= slot.to && Weekday(slot.day) != SUNDAY
    && OPENING <= slot.from && slot.to <= CLOSING
  }

  /** The checks that follow parsing, in the handlers' order; the first failure
      decides. `now` is the clock reading rounded up to a whole second. */
  function CheckSlot(slot: Slot, now: nat): (v: Verdict)
    ensures v.Accept? <==> Bookable(slot, now)
    ensures v.Accept? ==> v.start == slot.Start() && v.end == slot.End()
    ensures v.Accept? ==> now <= v.start && Admissible(v.start, v.end)
    ensures v.Reject? ==> v.reason in {Past, ClosedDay, OutsideHours}
  {
    var start, end := slot.Start(), slot.End();
    if now > start then Reject(Past)
    else if start > end then Reject(Past)
    else if Weekday(slot.day) == SUNDAY then Reject(ClosedDay)
    else if !(Stamp(slot.day, OPENING) <= start && end <= Stamp(slot.day, CLOSING)) then Reject(OutsideHours)
    else
      StampParts(slot.day, slot.from);
      Accept(start, end)
  }

  /** The day and the two times, read with the handler's time format. */
  function ParseSlot(format: TimeFormat, date: string, timeFrom: string, timeTo: string): (r: Option<Slot>)
    ensures r.Some? ==> ParseDate(date) == Some(r.value.day)
    ensures r.Some? ==> (ParseClock(timeFrom) == Some(r.value.from) && ParseClock(timeTo) == Some(r.value.to))
                        || (format == SecondsThenMinutes && ParseClockSeconds(timeFrom) == Some(r.value.from)
                            && ParseClockSeconds(timeTo) == Some(r.value.to))
    ensures format == MinutesOnly ==>
              (r.Some? <==> ParseDate(date).Some? && ParseClock(timeFrom).Some? && ParseClock(timeTo).Some?)
    ensures format == SecondsThenMinutes ==>
              (r.Some? <==> ParseDate(date).Some?
                            && ((ParseClockSeconds(timeFrom).Some? && ParseClockSeconds(timeTo).Some?)
                                || (ParseClock(timeFrom).Some? && ParseClock(timeTo).Some?)))
  {
    match ParseDate(date)
    case None => None
    case Some(day) =>
      var seconds := if format == SecondsThenMinutes
                     then (ParseClockSeconds(timeFrom), ParseClockSeconds(timeTo))
                     else (None, None);
      match seconds
      case (Some(a), Some(b)) => Some(Slot(day, a, b))
      case _ =>
        match (ParseClock(timeFrom), ParseClock(timeTo))
        case (Some(a), Some(b)) => Some(Slot(day, a, b))
        case _ => None
  }

  predicate AnyBlank(date: string, timeFrom: string, timeTo: string)
  {
    date == "" || timeFrom == "" || timeTo == ""
  }

  /** The validator: blank fields, then parsing, then the rules of CheckSlot. */
  function Validate(format: TimeFormat, date: string, timeFrom: string, timeTo: string, now: nat): (v: Verdict)
    ensures AnyBlank(date, timeFrom, timeTo) ==> v == Reject(Blank)
    ensures !AnyBlank(date, timeFrom, timeTo) && ParseSlot(format, date, timeFrom, timeTo).None?
            ==> v == Reject(Unparseable)
    ensures v.Accept? ==> now <= v.start && Admissible(v.start, v.end)
    ensures v.Accept? ==> v.start == ParseSlot(format, date, timeFrom, timeTo).value.Start()
                          && v.end == ParseSlot(format, date, timeFrom, timeTo).value.End()
    ensures !AnyBlank(date, timeFrom, timeTo) && ParseSlot(format, date, timeFrom, timeTo).Some?
            ==> v == CheckSlot(ParseSlot(format, date, timeFrom, timeTo).value, now)
    ensures v.Accept? <==> !AnyBlank(date, timeFrom, timeTo)
                           && ParseSlot(format, date, timeFrom, timeTo).Some?
                           && Bookable(ParseSlot(format, date, timeFrom, timeTo).value, now)
  {
    if AnyBlank(date, timeFrom, timeTo) then Reject(Blank)
    else match ParseSlot(format, date, timeFrom, timeTo)
         case None => Reject(Unparseable)
         case Some(slot) => CheckSlot(slot, now)
  }

  /** Blank fields are checked first: nothing else about the request matters. */
  lemma BlankDecidesAlone(format: TimeFormat, date: string, timeFrom: string, timeTo: string, now: nat,
                          format': TimeFormat, date': string, timeFrom': string, timeTo': string, now': nat)
    requires date == "" || timeFrom == "" || timeTo == ""
    requires date' == "" || timeFrom' == "" || timeTo' == ""
    ensures Validate(format, date, timeFrom, timeTo, now) == Validate(format', date', timeFrom', timeTo', now')
  {
  }

  /** A past start and an inverted interval are one rejection; both tests are
      strict, so starting right now and an empty interval pass this step. */
  lemma PastAndInvertedShareRejection(slot: Slot, now: nat)
    ensures CheckSlot(slot, now) == Reject(Past) <==> now > slot.Start() || slot.from > slot.to
  {
  }

  /** A Sunday is refused at any time of day. */
  lemma SundayAlwaysRejected(slot: Slot, now: nat)
    requires Weekday(slot.day) == SUNDAY
    ensures CheckSlot(slot, now).Reject?
    ensures now <= slot.Start() && slot.from <= slot.to ==> CheckSlot(slot, now) == Reject(ClosedDay)
  {
  }

  /** Once the earlier checks pass, the verdict is acceptance exactly when the
      interval lies in 09:00-17:00 (both ends inclusive), and 406 otherwise. */
  lemma BusinessHours(slot: Slot, now: nat)
    requires now <= slot.Start() && slot.from <= slot.to && Weekday(slot.day) != SUNDAY
    ensures CheckSlot(slot, now).Accept? <==>
            Stamp(slot.day, OPENING) <= slot.Start() && slot.End() <= Stamp(slot.day, CLOSING)
    ensures CheckSlot(slot, now).Reject? ==> CheckSlot(slot, now) == Reject(OutsideHours)
  {
  }

  /** The update handler reads every request the add handler reads, the same way. */
  lemma UpdateReadsWhatAddReads(date: string, timeFrom: string, timeTo: string)
    requires ParseSlot(MinutesOnly, date, timeFrom, timeTo).Some?
    ensures ParseSlot(SecondsThenMinutes, date, timeFrom, timeTo) == ParseSlot(MinutesOnly, date, timeFrom, timeTo)
  {
    ClockFormatsDisjoint(timeFrom);
  }

  /** Times with seconds: the update handler reads them, the add handler refuses them. */
  lemma SecondsOnlyOnUpdate(y: int, mo: int, d: int, h0: nat, m0: nat, s0: nat, h1: nat, m1: nat, s1: nat)
    requires ValidDate(y, mo, d)
    requires h0 < 24 && m0 < 60 && s0 < 60 && h1 < 24 && m1 < 60 && s1 < 60
    ensures ParseSlot(SecondsThenMinutes, FormatDate(y, mo, d),
                      FormatClockSeconds(h0, m0, s0), FormatClockSeconds(h1, m1, s1))
            == Some(Slot(DayNumber(y, mo, d), h0 * 3600 + m0 * 60 + s0, h1 * 3600 + m1 * 60 + s1))
    ensures ParseSlot(MinutesOnly, FormatDate(y, mo, d),
                      FormatClockSeconds(h0, m0, s0), FormatClockSeconds(h1, m1, s1)).None?
  {
    ParseFormatDate(y, mo, d);
    ParseFormatClockSeconds(h0, m0, s0);
    ParseFormatClockSeconds(h1, m1, s1);
  }

  /** The fallback is all or nothing: one time with seconds and one without is
      read by neither format, so the update handler fails on it. */
  lemma MixedTimeFormatsUnreadable(y: int, mo: int, d: int, h0: nat, m0: nat, s0: nat, h1: nat, m1: nat)
    requires ValidDate(y, mo, d)
    requires h0 < 24 && m0 < 60 && s0 < 60 && h1 < 24 && m1 < 60
    ensures ParseSlot(SecondsThenMinutes, FormatDate(y, mo, d),
                      FormatClockSeconds(h0, m0, s0), FormatClock(h1, m1)).None?
    ensures ParseSlot(SecondsThenMinutes, FormatDate(y, mo, d),
                      FormatClock(h1, m1), FormatClockSeconds(h0, m0, s0)).None?
  {
    ParseFormatDate(y, mo, d);
    ParseFormatClockSeconds(h0, m0, s0);
    ParseFormatClock(h1, m1);
    ClockFormatsDisjoint(FormatClockSeconds(h0, m0, s0));
    ClockFormatsDisjoint(FormatClock(h1, m1));
  }

  /** A future Monday-to-Saturday booking with 09:00 <= from <= to <= 17:00,
      written in the add handler's format, is accepted with its own interval. */
  lemma WellFormedRequestAccepted(y: int, mo: int, d: int, h0: nat, m0: nat, h1: nat, m1: nat, now: nat)
    requires ValidDate(y, mo, d) && Weekday(DayNumber(y, mo, d)) != SUNDAY
    requires h0 < 24 && m0 < 60 && h1 < 24 && m1 < 60
    requires OPENING <= h0 * 3600 + m0 * 60 <= h1 * 3600 + m1 * 60 <= CLOSING
    requires now <= Stamp(DayNumber(y, mo, d), h0 * 3600 + m0 * 60)
    ensures Validate(MinutesOnly, FormatDate(y, mo, d), FormatClock(h0, m0), FormatClock(h1, m1), now)
            == Accept(Stamp(DayNumber(y, mo, d), h0 * 3600 + m0 * 60), Stamp(DayNumber(y, mo, d), h1 * 3600 + m1 * 60))
  {
    ParseFormatDate(y, mo, d);
    ParseFormatClock(h0, m0);
    ParseFormatClock(h1, m1);
  }

  // ---------------------------------------------------------------------------
  // Conflicts

  /** Half-open intervals [s0, e0) and [s1, e1) intersect. */
  predicate Intersects(s0: int, e0: int, s1: int, e1: int)
    ensures Intersects(s0, e0, s1, e1) ==> s0 < e0 || s1 < e1
    ensures s0 == e0 ==> (Intersects(s0, e0, s1, e1) <==> s1 < s0 < e1)
  {
    s0 < e1 && s1 < e0
  }

  /** Instant `t` lies in the half-open interval [s, e). */
  predicate Covers(s: int, e: int, t: int)
  {
    s <= t < e
  }

  /** For non-empty intervals the rule agrees with its meaning: the two
      intervals share an instant. */
  lemma IntersectsIffSharedInstant(s0: int, e0: int, s1: int, e1: int)
    requires s0 < e0 && s1 < e1
    ensures Intersects(s0, e0, s1, e1) <==> exists t :: Covers(s0, e0, t) && Covers(s1, e1, t)
  {
    if Intersects(s0, e0, s1, e1) {
      var t := if s0 < s1 then s1 else s0;
      assert Covers(s0, e0, t) && Covers(s1, e1, t);
    }
  }

  lemma IntersectsSymmetric(s0: int, e0: int, s1: int, e1: int)
    ensures Intersects(s0, e0, s1, e1) <==> Intersects(s1, e1, s0, e0)
  {
  }

  /** Back-to-back bookings do not conflict. */
  lemma AdjacentNeverIntersect(s0: int, e0: int, e1: int)
    ensures !Intersects(s0, e0, e0, e1) && !Intersects(e0, e1, s0, e0)
  {
  }

  type Table = map<nat, Appointment>

  /** Some stored appointment other than `exclude` intersects [start, end). */
  ghost predicate HasConflict(table: Table, start: nat, end: nat, exclude: Option<nat>)
  {
    exists id :: id in table && Some(id) != exclude
                 && Intersects(table[id].start, table[id].end, start, end)
  }

  /** No two stored appointments intersect. */
  ghost predicate NoOverlap(table: Table)
  {
    forall i, j :: i in table && j in table && i != j
                   ==> !Intersects(table[i].start, table[i].end, table[j].start, table[j].end)
  }

  /** Adding an appointment that conflicts with nothing keeps the table free of overlaps. */
  lemma InsertKeepsNoOverlap(table: Table, a: Appointment)
    requires NoOverlap(table) && a.id !in table
    requires !HasConflict(table, a.start, a.end, None)
    ensures NoOverlap(table[a.id := a])
  {
    var t := table[a.id := a];
    forall i, j | i in t && j in t && i != j
      ensures !Intersects(t[i].start, t[i].end, t[j].start, t[j].end)
    {
      if i == a.id {
        assert !Intersects(table[j].start, table[j].end, a.start, a.end);
      } else if j == a.id {
        assert !Intersects(table[i].start, table[i].end, a.start, a.end);
      }
    }
  }

  /** Overwriting a record with an interval that conflicts with no other record
      keeps the table free of overlaps. */
  lemma OverwriteKeepsNoOverlap(table: Table, a: Appointment)
    requires NoOverlap(table) && a.id in table
    requires !HasConflict(table, a.start, a.end, Some(a.id))
    ensures NoOverlap(table[a.id := a])
  {
    var t := table[a.id := a];
    forall i, j | i in t && j in t && i != j
      ensures !Intersects(t[i].start, t[i].end, t[j].start, t[j].end)
    {
      if i == a.id {
        assert !Intersects(table[j].start, table[j].end, a.start, a.end);
      } else if j == a.id {
        assert !Intersects(table[i].start, table[i].end, a.start, a.end);
      }
    }
  }

  /** In a table without overlaps, a record's own interval conflicts with
      nothing once the record itself is skipped. */
  lemma OwnIntervalNeverConflicts(table: Table, id: nat)
    requires NoOverlap(table) && id in table
    ensures !HasConflict(table, table[id].start, table[id].end, Some(id))
  {
  }
}
