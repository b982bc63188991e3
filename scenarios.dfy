/** Concrete scenarios from the scheduler's tests, stated about the model. */
module Scenarios {
  import opened Strings
  import opened Decimal
  import opened CalendarRules
  import opened Reservations

  /** Day 19908 is 2024-07-04, the holiday of the scheduler's tests. */
  lemma IndependenceDayCivil()
    ensures CivilFromDays(IndependenceDay2024) == CivilDate(2024, 7, 4)
  {
    var c := CivilDate(2024, 7, 4);
    assert DaysFromCivil(c) == IndependenceDay2024;
    CivilFromDaysInverse(c);
  }

  lemma IndependenceDayRendering()
    ensures FormatDate(IndependenceDay2024) == "2024-07-04"
  {
    IndependenceDayCivil();
    JulyFourthRendering(IndependenceDay2024);
  }

  lemma JulyFourthRendering(d: Day)
    requires CivilFromDays(d) == CivilDate(2024, 7, 4)
    ensures FormatDate(d) == "2024-07-04"
  {
    YearDigits2024();
    assert Padded(7, 2) == "07" && Padded(4, 2) == "04";
  }

  lemma YearDigits2024()
    ensures Digits(2024) == "2024"
  {
    assert Digits(2) == "2" && Digits(20) == "20" && Digits(202) == "202";
  }

  /** The leap day of 2024 is day 19782 and renders as itself. */
  lemma LeapDayRendering()
    ensures CivilFromDays(19782) == CivilDate(2024, 2, 29)
    ensures FormatDate(19782) == "2024-02-29"
  {
    var c := CivilDate(2024, 2, 29);
    assert DaysFromCivil(c) == 19782;
    CivilFromDaysInverse(c);
    LeapDayFields(19782);
  }

  lemma LeapDayFields(d: Day)
    requires CivilFromDays(d) == CivilDate(2024, 2, 29)
    ensures FormatDate(d) == "2024-02-29"
  {
    YearDigits2024();
    assert Padded(2, 2) == "02";
    assert Digits(29) == "29" by {
      assert Digits(2) == "2";
    }
  }

  /** `convertFromICalendarFormat` on the example of the scheduler's tests. */
  lemma FromICalendarExample()
    ensures FromICalendar("20240704T090000Z") == "2024-07-04"
  {
    DatePartExample();
    RedashedExample();
  }

  lemma DatePartExample()
    ensures TakeUntil("20240704T090000Z", 'T') == "20240704"
  {
    assert "20240704T090000Z" == "20240704" + ['T'] + "090000Z";
    TakeUntilSeparator("20240704", 'T', "090000Z");
  }

  lemma RedashedExample()
    ensures "20240704"[..4] + "-" + "20240704"[4..6] + "-" + "20240704"[6..] == "2024-07-04"
  {
  }

  /** `convertToICalendarFormat` on the example of the scheduler's tests
      (the two texts are parameters so that the verifier does not unfold the
      character removal on the literals). */
  lemma ToICalendarExample(date: string, time: string)
    requires date == "2024-07-04" && time == "09:00:00"
    ensures ToICalendar(date, time) == "20240704T090000Z"
  {
    assert date == "2024" + ['-'] + "07" + ['-'] + "04";
    RemoveSeparators("2024", "07", "04", '-');
    assert "2024" + "07" + "04" == "20240704";
    assert time == "09" + [':'] + "00" + [':'] + "00";
    RemoveSeparators("09", "00", "00", ':');
    assert "09" + "00" + "00" == "090000";
    StampExampleLiteral();
  }

  lemma StampExampleLiteral()
    ensures "20240704" + "T" + "090000" + "Z" == "20240704T090000Z"
  {
  }

  /** Days 19784 to 19786 are 2024-03-02 to 2024-03-04, and of these the
      Saturday and the Sunday are weekend days, the Monday is not. */
  lemma WeekendExamples(d: Day)
    requires 19784 <= d <= 19786
    ensures CivilFromDays(d) == CivilDate(2024, 3, d - 19782)
    ensures IsWeekend(d) <==> d < 19786
  {
    MarchDay2024(d - 19782, d);
  }

  /** Day `d` is 2024-03-`day` when it lies `day - 1` days after day 19783. */
  lemma MarchDay2024(day: int, d: Day)
    requires 1 <= day <= 31 && d == 19783 + day - 1
    ensures CivilFromDays(d) == CivilDate(2024, 3, day)
  {
    var c := CivilDate(2024, 3, day);
    assert DaysFromCivil(CivilDate(2024, 3, 1)) == 19783;
    assert DaysFromCivil(c) == d;
    CivilFromDaysInverse(c);
  }

  /** The booking tests on a fresh store, for any bookable weekday and any
      holiday: the holiday is refused, the weekday booked, a second booking
      of it refused, and the record looked up (unless the attendee already
      carried `mailto:`, which booking then doubles). */
  method BookingScenario(day: Day, holiday: Day, attendee: string, code: string, otherCode: string)
    returns (onHoliday: Option<string>, booked: Option<string>, duplicate: Option<string>,
             found: seq<Reservation>)
    requires !IsWeekend(day) && !IsHoliday(DefaultHolidays, day) && IsHoliday(DefaultHolidays, holiday)
    requires IsConfirmationCode(code) && IsConfirmationCode(otherCode)
    ensures onHoliday == None && booked == Some(code) && duplicate == None
    ensures |found| == (if StartsWith(attendee, MailTo) then 0 else 1)
  {
    var scheduler := new Scheduler(DefaultHolidays);
    onHoliday := scheduler.MakeReservation(holiday, "holiday@example.com", "REQUEST", Confirmed, "", otherCode);
    assert onHoliday == None && scheduler.reservations == [];
    booked := scheduler.MakeReservation(day, attendee, "REQUEST", Confirmed, "", code);
    var record := NewReservation(day, attendee, "", "REQUEST", Confirmed, code);
    assert booked == Some(code) && scheduler.reservations == [record];
    BookingOccupiesItsDate(day, attendee, "", "REQUEST", Confirmed, code);
    assert Occupies(scheduler.reservations[0], FormatDate(day));
    duplicate := scheduler.MakeReservation(day, "duplicate@example.com", "REQUEST", Confirmed, "", otherCode);
    assert duplicate == None && scheduler.reservations == [record];
    LookupAfterBooking([], day, attendee, "", "REQUEST", Confirmed, code);
    found := LookupReservations(scheduler.reservations, attendee);
  }

  /** The next-date tests: whatever the store, the day found after any start
      day is a weekday and never the 2024-07-04 holiday. */
  method NextDateScenario(reservations: seq<Reservation>, startDate: Day) returns (next: Day, date: string)
    ensures startDate < next && !IsWeekend(next) && next != IndependenceDay2024
    ensures date == FormatDate(next)
  {
    var scheduler := new Scheduler(DefaultHolidays);
    scheduler.reservations := reservations;
    next, date := scheduler.FindNextAvailableDate(startDate);
  }

  /** The cancellation tests: a booking is cancelled twice, both times
      answering true, an unknown code is refused, and the day can then be
      booked again. */
  method CancellationScenario(day: Day, attendee: string, code: string, otherCode: string)
    returns (cancelled: bool, cancelledAgain: bool, unknown: bool, rebooked: Option<string>)
    requires !IsWeekend(day) && !IsHoliday(DefaultHolidays, day)
    requires IsConfirmationCode(code) && IsConfirmationCode(otherCode)
    ensures cancelled && cancelledAgain && !unknown
    ensures rebooked == Some(otherCode)
  {
    var scheduler := new Scheduler(DefaultHolidays);
    var booked := scheduler.MakeReservation(day, attendee, "REQUEST", Confirmed, "", code);
    assert booked == Some(code) && |scheduler.reservations| == 1 && scheduler.reservations[0].confirmationCode == code;
    cancelled := scheduler.CancelReservation(code);
    cancelledAgain := scheduler.CancelReservation(code);
    assert |scheduler.reservations| == 1 && scheduler.reservations[0].status == Cancelled;
    unknown := scheduler.CancelReservation("nonexistent1234");
    assert !Occupies(scheduler.reservations[0], FormatDate(day));
    rebooked := scheduler.MakeReservation(day, attendee, "REQUEST", Confirmed, "", otherCode);
  }
}
