/** A request sequence a client of the handlers can rely on, derived from the
    handlers' contracts alone. On a working day, a booking 09:00-10:00 is
    added; one at 09:30-10:30 overlaps it and is refused; one at 10:00-11:00
    starts where the first ends and is added. */
module Scenarios {
  import opened Calendar
  import opened Booking
  import opened Scheduling

  /** A date that is not a Sunday. */
  predicate WorkingDay(y: int, mo: int, d: int)
  {
    ValidDate(y, mo, d) && Weekday(DayNumber(y, mo, d)) != SUNDAY
  }

  function At(y: int, mo: int, d: int, h: nat, m: nat): nat
    requires ValidDate(y, mo, d) && h < 24 && m < 60
  {
    Stamp(DayNumber(y, mo, d), h * 3600 + m * 60)
  }

  /** The add request for `h0:m0`-`h1:m1` on the given date. */
  function RequestOn(y: int, mo: int, d: int, h0: nat, m0: nat, h1: nat, m1: nat, who: string): Request
    requires ValidDate(y, mo, d) && h0 < 24 && m0 < 60 && h1 < 24 && m1 < 60
  {
    Request(FormatDate(y, mo, d), FormatClock(h0, m0), FormatClock(h1, m1), who, who, who)
  }

  /** The first booking of the day goes into an empty store as record 1. */
  method FirstBookingAdded(y: int, mo: int, d: int) returns (store: Store, resp: Response)
    requires WorkingDay(y, mo, d)
    ensures resp == Response(201, Added)
    ensures fresh(store) && store.Valid() && store.nextId == 2 && store.table.Keys == {1}
    ensures store.table[1].start == At(y, mo, d, 9, 0) && store.table[1].end == At(y, mo, d, 10, 0)
  {
    var now := Stamp(DayNumber(y, mo, d), 0);
    var clock := now * MICROS_PER_SECOND;
    SecondsUpOfWhole(now);
    store := new Store();
    WellFormedRequestAccepted(y, mo, d, 9, 0, 10, 0, now);
    resp := store.Add(RequestOn(y, mo, d, 9, 0, 10, 0, "Ann"), clock);
  }

  /** A booking overlapping record 1 is refused with 409 and changes nothing. */
  method OverlapRefused(store: Store, y: int, mo: int, d: int) returns (resp: Response)
    requires WorkingDay(y, mo, d)
    requires store.Valid() && store.table.Keys == {1}
    requires store.table[1].start == At(y, mo, d, 9, 0) && store.table[1].end == At(y, mo, d, 10, 0)
    modifies store
    ensures resp == Response(409, Conflict)
    ensures store.Valid() && store.table == old(store.table) && store.nextId == old(store.nextId)
  {
    var now := Stamp(DayNumber(y, mo, d), 0);
    var clock := now * MICROS_PER_SECOND;
    SecondsUpOfWhole(now);
    WellFormedRequestAccepted(y, mo, d, 9, 30, 10, 30, now);
    assert HasConflict(store.table, At(y, mo, d, 9, 30), At(y, mo, d, 10, 30), None) by {
      assert Intersects(store.table[1].start, store.table[1].end, At(y, mo, d, 9, 30), At(y, mo, d, 10, 30));
    }
    resp := store.Add(RequestOn(y, mo, d, 9, 30, 10, 30, "Bo"), clock);
  }

  /** A booking that starts when record 1 ends is added as record 2. */
  method BackToBackAdded(store: Store, y: int, mo: int, d: int) returns (resp: Response)
    requires WorkingDay(y, mo, d)
    requires store.Valid() && store.table.Keys == {1} && store.nextId == 2
    requires store.table[1].start == At(y, mo, d, 9, 0) && store.table[1].end == At(y, mo, d, 10, 0)
    modifies store
    ensures resp == Response(201, Added)
    ensures store.Valid() && store.table.Keys == {1, 2} && store.nextId == 3
    ensures store.table[1] == old(store.table[1])
    ensures store.table[2].start == At(y, mo, d, 10, 0) && store.table[2].end == At(y, mo, d, 11, 0)
  {
    var now := Stamp(DayNumber(y, mo, d), 0);
    var clock := now * MICROS_PER_SECOND;
    SecondsUpOfWhole(now);
    WellFormedRequestAccepted(y, mo, d, 10, 0, 11, 0, now);
    assert !HasConflict(store.table, At(y, mo, d, 10, 0), At(y, mo, d, 11, 0), None);
    resp := store.Add(RequestOn(y, mo, d, 10, 0, 11, 0, "Cy"), clock);
  }

  /** The sequence on Tuesday 2024-01-02, then record 1 deleted twice: the
      second time it is gone. */
  method AdjacentBookings() returns (deleted: Response, again: Response)
    ensures deleted == Response(202, Removed) && again == Response(404, NotFound)
  {
    assert DayNumber(2024, 1, 2) == 738886 && Weekday(738886) == 1;
    var store, _ := FirstBookingAdded(2024, 1, 2);
    var _ := OverlapRefused(store, 2024, 1, 2);
    var _ := BackToBackAdded(store, 2024, 1, 2);
    deleted := store.Delete(1);
    again := store.Delete(1);
  }
}
