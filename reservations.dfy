/** The availability and reservation engine: date queries, the forward
    searches for free business days, and booking, lookup and cancellation over
    an append-only list of reservation records. */
module Reservations {
  import opened Strings
  import opened CalendarRules

  datatype Option<T> = None | Some(value: T)

  /** One stored record; the fields are those of the persisted object. */
  datatype Reservation = Reservation(
    dtStart: string,          // DTSTART: the UTC DATE-TIME the booking starts at
    attendee: string,         // ATTENDEE: a `mailto:` contact address
    dtStamp: string,          // DTSTAMP: when the record was made
    itipMethod: string,       // METHOD: the caller's value, e.g. REQUEST
    status: string,           // STATUS: the caller's value, or CANCELLED
    confirmationCode: string)

  const Cancelled := "CANCELLED"
  const Confirmed := "CONFIRMED"
  const MailTo := "mailto:"
  /** Every booking starts at 09:00:00 UTC. */
  const OpeningTime := "09:00:00"

  /** Eight lowercase hexadecimal characters, the form of a confirmation code. */
  predicate IsConfirmationCode(code: string)
  {
    |code| == 8 && forall i :: 0 <= i < |code| ==> code[i] in "0123456789abcdef"
  }

  /** A record occupies a `YYYY-MM-DD` date when its start begins with the
      date's digits and its status is anything but CANCELLED. */
  predicate Occupies(r: Reservation, inputDate: string)
  {
    StartsWith(r.dtStart, RemoveChar(inputDate, '-')) && r.status != Cancelled
  }

  /** `isDateReserved`: some record of the store occupies the date. */
  function IsDateReserved(reservations: seq<Reservation>, inputDate: string): bool
  {
    if reservations == [] then false
    else Occupies(reservations[0], inputDate) || IsDateReserved(reservations[1..], inputDate)
  }

  /** A date is reserved exactly when some record of the store occupies it. */
  lemma {:induction false} ReservedIffOccupied(reservations: seq<Reservation>, inputDate: string)
    ensures IsDateReserved(reservations, inputDate) <==> exists i :: 0 <= i < |reservations| && Occupies(reservations[i], inputDate)
  {
    if reservations != [] {
      ReservedIffOccupied(reservations[1..], inputDate);
      if !Occupies(reservations[0], inputDate) && IsDateReserved(reservations[1..], inputDate) {
        var i :| 0 <= i < |reservations[1..]| && Occupies(reservations[1..][i], inputDate);
        assert Occupies(reservations[i + 1], inputDate);
      }
    }
  }

  /** Some active record starts exactly at `stamp`. */
  predicate HasActiveStart(reservations: seq<Reservation>, stamp: string)
  {
    exists i :: 0 <= i < |reservations| && reservations[i].dtStart == stamp && reservations[i].status != Cancelled
  }

  /** A day can be booked: it is not reserved, not a weekend and not a holiday. */
  predicate Available(reservations: seq<Reservation>, holidays: set<Day>, d: Day)
  {
    !IsDateReserved(reservations, FormatDate(d)) && !IsWeekend(d) && !IsHoliday(holidays, d)
  }

  /** The record a successful booking appends. */
  function NewReservation(date: Day, attendee: string, createdAt: string, itipMethod: string,
                          status: string, code: string): Reservation
  {
    Reservation(ToICalendar(FormatDate(date), OpeningTime), MailTo + attendee, createdAt, itipMethod, status, code)
  }

  /** The address a lookup compares with: `mailto:` is added only when absent. */
  function ContactAddress(email: string): (address: string)
    ensures StartsWith(address, MailTo)
    ensures StartsWith(email, MailTo) ==> address == email
    ensures address == email || address == MailTo + email
  {
    if StartsWith(email, MailTo) then email else MailTo + email
  }

  /** `lookupReservations`: the records whose attendee is the contact address
      of `patientEmail`, cancelled ones included, in store order. */
  function LookupReservations(reservations: seq<Reservation>, patientEmail: string): seq<Reservation>
  {
    if reservations == [] then []
    else
      (if reservations[0].attendee == ContactAddress(patientEmail) then [reservations[0]] else [])
      + LookupReservations(reservations[1..], patientEmail)
  }

  /** `findIndex` by confirmation code: the first record carrying `code`, or -1. */
  function FindIndexByCode(reservations: seq<Reservation>, code: string): (i: int)
    ensures -1 <= i < |reservations|
    ensures i == -1 <==> forall j :: 0 <= j < |reservations| ==> reservations[j].confirmationCode != code
    ensures i != -1 ==> reservations[i].confirmationCode == code &&
                        forall j :: 0 <= j < i ==> reservations[j].confirmationCode != code
  {
    if reservations == [] then -1
    else if reservations[0].confirmationCode == code then 0
    else
      var k := FindIndexByCode(reservations[1..], code);
      if k == -1 then -1 else k + 1
  }

  /** The bookable days of `[lo, hi)`, in increasing order: what the
      multi-date search has collected once its cursor reaches `hi`. */
  function AvailableDays(reservations: seq<Reservation>, holidays: set<Day>, lo: Day, hi: Day): seq<Day>
    decreases hi - lo
  {
    if hi <= lo then []
    else AvailableDays(reservations, holidays, lo, hi - 1) + (if Available(reservations, holidays, hi - 1) then [hi - 1] else [])
  }

  /** The renderings the multi-date search has collected once its cursor
      reaches `hi`: those of the bookable days of `[lo, hi)`. */
  function AvailableDates(reservations: seq<Reservation>, holidays: set<Day>, lo: Day, hi: Day): seq<string>
    decreases hi - lo
  {
    if hi <= lo then []
    else AvailableDates(reservations, holidays, lo, hi - 1) + (if Available(reservations, holidays, hi - 1) then [FormatDate(hi - 1)] else [])
  }

  /** Strictly increasing: every day comes before all later ones. */
  predicate Increasing(days: seq<Day>)
  {
    forall i, j :: 0 <= i < j < |days| ==> days[i] < days[j]
  }

  lemma IncreasingAppend(days: seq<Day>, d: Day)
    requires Increasing(days)
    requires forall i :: 0 <= i < |days| ==> days[i] < d
    ensures Increasing(days + [d])
  {
  }

  /** The reservation store and the operations that read and change it. */
  class Scheduler {
    /** The records `readReservations` returns and `writeReservations` replaces. */
    var reservations: seq<Reservation>
    /** The holiday calendar `isHoliday` consults. */
    const holidays: set<Day>

    /** A store whose file does not exist yet reads as empty. */
    constructor (holidays: set<Day>)
      ensures this.holidays == holidays && reservations == []
    {
      this.holidays := holidays;
      reservations := [];
    }

    /** `findNextAvailableDate`: the first bookable day strictly after
        `startDate`; the cursor always moves on before the first test. */
    method FindNextAvailableDate(startDate: Day) returns (next: Day, date: string)
      ensures startDate < next && Available(reservations, holidays, next)
      ensures forall d :: startDate < d < next ==> !Available(reservations, holidays, d)
      ensures date == FormatDate(next)
    {
      ghost var horizon := BookingHorizon(reservations, holidays);
      next := startDate + 1;
      while IsDateReserved(reservations, FormatDate(next)) || IsWeekend(next) || IsHoliday(holidays, next)
        invariant startDate < next
        invariant AvailableDays(reservations, holidays, startDate + 1, next) == []
        decreases SearchDistance(horizon, next)
      {
        assert !Available(reservations, holidays, next);
        SearchDistanceShrinks(reservations, holidays, horizon, next);
        next := next + 1;
      }
      AvailableDaysComplete(reservations, holidays, startDate + 1, next);
      date := FormatDate(next);
    }

    /** One step of `findNextAvailableDates`: the weekend, holiday and
        reserved tests, then the exact-match test on the day's stamp; an
        accepted day comes back converted from its stamp. */
    method CheckDay(current: Day) returns (accepted: bool, date: string)
      ensures accepted <==> Available(reservations, holidays, current)
      ensures accepted ==> date == FormatDate(current)
    {
      accepted, date := false, "";
      if !IsWeekend(current) && !IsHoliday(holidays, current) && !IsDateReserved(reservations, FormatDate(current)) {
        var formattedDate := ToICalendar(FormatDate(current), OpeningTime);
        FreeDayStampIsFree(reservations, current);
        if !HasActiveStart(reservations, formattedDate) {
          accepted, date := true, FromICalendar(formattedDate);
        }
      }
    }

    /** `findNextAvailableDates`: the first `n` bookable days from `startDate`
        on (inclusive), in order, none skipped; none when `n <= 0`. */
    method FindNextAvailableDates(n: int, startDate: Day) returns (days: seq<Day>, dates: seq<string>)
      ensures |days| == (if n <= 0 then 0 else n)
      ensures |dates| == |days| && forall i :: 0 <= i < |days| ==> dates[i] == FormatDate(days[i])
      ensures forall i :: 0 <= i < |days| ==> startDate <= days[i] && Available(reservations, holidays, days[i])
      ensures Increasing(days)
      ensures forall d :: startDate <= d && |days| > 0 && d < days[|days| - 1] && Available(reservations, holidays, d) ==> d in days
    {
      days, dates := [], [];
      var current := startDate;
      ghost var horizon := BookingHorizon(reservations, holidays);
      while |days| < n
        invariant |days| <= (if n <= 0 then 0 else n)
        invariant startDate <= current
        invariant days == AvailableDays(reservations, holidays, startDate, current)
        invariant dates == AvailableDates(reservations, holidays, startDate, current)
        decreases n - |days|, SearchDistance(horizon, current)
      {
        var accepted, date := CheckDay(current);
        if accepted {
          days := days + [current];
          dates := dates + [date];
        } else {
          SearchDistanceShrinks(reservations, holidays, horizon, current);
        }
        current := current + 1;
      }
      AvailableDatesRenderDays(reservations, holidays, startDate, current);
      AvailableDaysSound(reservations, holidays, startDate, current);
      AvailableDaysIncreasing(reservations, holidays, startDate, current);
      AvailableDaysComplete(reservations, holidays, startDate, current);
    }

    /** `makeReservation`: a weekend, reserved or holiday date is refused and
        nothing changes; otherwise the new record is appended and its code
        returned. The code stands for the hash-derived value and `createdAt`
        for the wall-clock DTSTAMP. */
    method MakeReservation(date: Day, attendee: string, itipMethod: string, status: string,
                           createdAt: string, freshCode: string) returns (code: Option<string>)
      requires IsConfirmationCode(freshCode)
      modifies this
      ensures !Available(old(reservations), holidays, date) ==> code == None && reservations == old(reservations)
      ensures Available(old(reservations), holidays, date) ==>
                code == Some(freshCode) &&
                reservations == old(reservations) + [NewReservation(date, attendee, createdAt, itipMethod, status, freshCode)]
      ensures code.Some? ==> IsConfirmationCode(code.value)
    {
      if IsWeekend(date) || IsDateReserved(reservations, FormatDate(date)) || IsHoliday(holidays, date) {
        return None;
      }
      var reservation := NewReservation(date, attendee, createdAt, itipMethod, status, freshCode);
      reservations := reservations + [reservation];
      code := Some(freshCode);
    }

    /** `cancelReservation`: the first record with the code becomes CANCELLED
        (even if it already was) and the answer is true; with no such record
        the answer is false and nothing changes. */
    method CancelReservation(confirmationCode: string) returns (found: bool)
      modifies this
      ensures found <==> exists j :: 0 <= j < |old(reservations)| && old(reservations)[j].confirmationCode == confirmationCode
      ensures var i := FindIndexByCode(old(reservations), confirmationCode);
              if i == -1 then reservations == old(reservations)
              else reservations == old(reservations)[i := old(reservations)[i].(status := Cancelled)]
    {
      var reservationIndex := FindIndexByCode(reservations, confirmationCode);
      if reservationIndex != -1 {
        reservations := reservations[reservationIndex := reservations[reservationIndex].(status := Cancelled)];
        found := true;
      } else {
        found := false;
      }
    }
  }

  // ----- Lemmas about the store -----

  /** The exact-match test of the multi-date search never rejects a day the
      prefix test accepted: a stamp that begins with the date's digits and is
      held by an active record makes the date reserved already. */
  lemma ExactMatchIsRedundant(reservations: seq<Reservation>, inputDate: string, stamp: string)
    requires StartsWith(stamp, RemoveChar(inputDate, '-'))
    ensures HasActiveStart(reservations, stamp) ==> IsDateReserved(reservations, inputDate)
  {
    if HasActiveStart(reservations, stamp) {
      var i :| 0 <= i < |reservations| && reservations[i].dtStart == stamp && reservations[i].status != Cancelled;
      assert Occupies(reservations[i], inputDate);
      ReservedIffOccupied(reservations, inputDate);
    }
  }

  /** Everything collected from `[lo, hi)` is a bookable day of that range. */
  lemma {:induction false} AvailableDaysSound(reservations: seq<Reservation>, holidays: set<Day>, lo: Day, hi: Day)
    ensures forall i :: 0 <= i < |AvailableDays(reservations, holidays, lo, hi)| ==>
              lo <= AvailableDays(reservations, holidays, lo, hi)[i] < hi && Available(reservations, holidays, AvailableDays(reservations, holidays, lo, hi)[i])
    decreases hi - lo
  {
    if lo < hi {
      AvailableDaysSound(reservations, holidays, lo, hi - 1);
      var days := AvailableDays(reservations, holidays, lo, hi - 1);
      var all := AvailableDays(reservations, holidays, lo, hi);
      if Available(reservations, holidays, hi - 1) {
        assert all == days + [hi - 1];
      } else {
        assert all == days + [] == days;
      }
      forall i | 0 <= i < |all|
        ensures lo <= all[i] < hi && Available(reservations, holidays, all[i])
      {
        if i < |days| {
          assert all[i] == days[i];
        }
      }
    }
  }

  /** The days are collected in increasing order. */
  lemma {:induction false} AvailableDaysIncreasing(reservations: seq<Reservation>, holidays: set<Day>, lo: Day, hi: Day)
    ensures Increasing(AvailableDays(reservations, holidays, lo, hi))
    decreases hi - lo
  {
    if lo < hi {
      var days := AvailableDays(reservations, holidays, lo, hi - 1);
      AvailableDaysIncreasing(reservations, holidays, lo, hi - 1);
      AvailableDaysSound(reservations, holidays, lo, hi - 1);
      if Available(reservations, holidays, hi - 1) {
        IncreasingAppend(days, hi - 1);
      } else {
        assert days + [] == days;
      }
    }
  }

  /** The collected renderings are those of the collected days, position by position. */
  lemma {:induction false} AvailableDatesRenderDays(reservations: seq<Reservation>, holidays: set<Day>, lo: Day, hi: Day)
    ensures |AvailableDates(reservations, holidays, lo, hi)| == |AvailableDays(reservations, holidays, lo, hi)|
    ensures forall i :: 0 <= i < |AvailableDays(reservations, holidays, lo, hi)| ==>
              AvailableDates(reservations, holidays, lo, hi)[i] == FormatDate(AvailableDays(reservations, holidays, lo, hi)[i])
    decreases hi - lo
  {
    if lo < hi {
      AvailableDatesRenderDays(reservations, holidays, lo, hi - 1);
      var days := AvailableDays(reservations, holidays, lo, hi - 1);
      var dates := AvailableDates(reservations, holidays, lo, hi - 1);
      if !Available(reservations, holidays, hi - 1) {
        assert days + [] == days;
        assert dates + [] == dates;
      }
    }
  }

  /** No bookable day of `[lo, hi)` is missed. */
  lemma {:induction false} AvailableDaysComplete(reservations: seq<Reservation>, holidays: set<Day>, lo: Day, hi: Day)
    ensures forall d :: lo <= d < hi && Available(reservations, holidays, d) ==> d in AvailableDays(reservations, holidays, lo, hi)
    decreases hi - lo
  {
    if lo < hi {
      AvailableDaysComplete(reservations, holidays, lo, hi - 1);
      var days := AvailableDays(reservations, holidays, lo, hi - 1);
      if Available(reservations, holidays, hi - 1) {
        assert AvailableDays(reservations, holidays, lo, hi) == days + [hi - 1];
      } else {
        assert AvailableDays(reservations, holidays, lo, hi) == days + [];
        assert days + [] == days;
      }
      forall d | lo <= d < hi && Available(reservations, holidays, d)
        ensures d in AvailableDays(reservations, holidays, lo, hi)
      {
        if d < hi - 1 {
          assert d in days;
        }
      }
    }
  }

  /** On a day that is not reserved, the multi-date search's exact-match
      test passes, and the stamp it builds converts back to the day's date. */
  lemma FreeDayStampIsFree(reservations: seq<Reservation>, d: Day)
    requires !IsDateReserved(reservations, FormatDate(d))
    ensures !HasActiveStart(reservations, ToICalendar(FormatDate(d), OpeningTime))
    ensures FromICalendar(ToICalendar(FormatDate(d), OpeningTime)) == FormatDate(d)
  {
    StampStartsWithKey(d, OpeningTime);
    ExactMatchIsRedundant(reservations, FormatDate(d), ToICalendar(FormatDate(d), OpeningTime));
    StampRoundTrip(d, OpeningTime);
  }

  /** Appending a record reserves exactly what was reserved before plus what the record occupies. */
  lemma ReservedAfterAppend(reservations: seq<Reservation>, r: Reservation, inputDate: string)
    ensures IsDateReserved(reservations + [r], inputDate) <==>
            IsDateReserved(reservations, inputDate) || Occupies(r, inputDate)
  {
    var s := reservations + [r];
    ReservedIffOccupied(reservations, inputDate);
    ReservedIffOccupied(s, inputDate);
    if IsDateReserved(reservations, inputDate) {
      var i :| 0 <= i < |reservations| && Occupies(reservations[i], inputDate);
      assert s[i] == reservations[i];
    }
    if Occupies(r, inputDate) {
      assert s[|reservations|] == r;
    }
    if IsDateReserved(s, inputDate) {
      var i :| 0 <= i < |s| && Occupies(s[i], inputDate);
      if i < |reservations| {
        assert s[i] == reservations[i];
      }
    }
  }

  /** A new booking occupies its own date unless its status is CANCELLED. */
  lemma BookingOccupiesItsDate(date: Day, attendee: string, createdAt: string, itipMethod: string,
                               status: string, code: string)
    ensures Occupies(NewReservation(date, attendee, createdAt, itipMethod, status, code), FormatDate(date))
            <==> status != Cancelled
  {
    StampStartsWithKey(date, OpeningTime);
  }

  /** A new booking occupies no other date, as long as its year has four digits. */
  lemma BookingOccupiesNoOtherDate(date: Day, other: Day, attendee: string, createdAt: string,
                                   itipMethod: string, status: string, code: string)
    requires CivilFromDays(date).year < 10000
    requires other != date
    ensures !Occupies(NewReservation(date, attendee, createdAt, itipMethod, status, code), FormatDate(other))
  {
    var key, otherKey := DateKey(date), DateKey(other);
    var rest := RemoveChar(OpeningTime, ':') + "Z";
    DateKeyDigits(date);
    DateKeyDigits(other);
    assert 'T' !in otherKey;
    assert ToICalendar(FormatDate(date), OpeningTime) == key + ['T'] + rest;
    if StartsWith(key + ['T'] + rest, otherKey) {
      PrefixBeforeSeparator(key, 'T', rest, otherKey);
      DateKeyInjective(date, other);
    }
  }

  /** Booking `date` makes `date` reserved exactly when it already was or the
      booking is not CANCELLED, and (for years below 10000) changes the
      reserved status of no other date. */
  lemma BookingReservesOnlyItsDate(reservations: seq<Reservation>, date: Day, other: Day, attendee: string,
                                   createdAt: string, itipMethod: string, status: string, code: string)
    ensures var after := reservations + [NewReservation(date, attendee, createdAt, itipMethod, status, code)];
            (IsDateReserved(after, FormatDate(date)) <==> IsDateReserved(reservations, FormatDate(date)) || status != Cancelled) &&
            (other != date && CivilFromDays(date).year < 10000 ==>
               (IsDateReserved(after, FormatDate(other)) <==> IsDateReserved(reservations, FormatDate(other))))
  {
    var r := NewReservation(date, attendee, createdAt, itipMethod, status, code);
    ReservedAfterAppend(reservations, r, FormatDate(date));
    BookingOccupiesItsDate(date, attendee, createdAt, itipMethod, status, code);
    ReservedAfterAppend(reservations, r, FormatDate(other));
    if other != date && CivilFromDays(date).year < 10000 {
      BookingOccupiesNoOtherDate(date, other, attendee, createdAt, itipMethod, status, code);
    }
  }

  /** The invariant the booking refusal keeps: no date is occupied by two records. */
  ghost predicate OneBookingPerDate(reservations: seq<Reservation>)
  {
    forall i, j, d: Day ::
      (0 <= i < |reservations| && 0 <= j < |reservations| &&
       Occupies(reservations[i], FormatDate(d)) && Occupies(reservations[j], FormatDate(d))) ==> i == j
  }

  /** A booking of an unreserved date, as `makeReservation` makes, keeps at most
      one record per date (for years below 10000). */
  lemma BookingKeepsOneBookingPerDate(reservations: seq<Reservation>, date: Day, attendee: string,
                                      createdAt: string, itipMethod: string, status: string, code: string)
    requires OneBookingPerDate(reservations)
    requires !IsDateReserved(reservations, FormatDate(date))
    requires CivilFromDays(date).year < 10000
    ensures OneBookingPerDate(reservations + [NewReservation(date, attendee, createdAt, itipMethod, status, code)])
  {
    var r := NewReservation(date, attendee, createdAt, itipMethod, status, code);
    var s := reservations + [r];
    ReservedIffOccupied(reservations, FormatDate(date));
    assert forall k :: 0 <= k < |reservations| ==> !Occupies(reservations[k], FormatDate(date));
    forall d: Day | d != date
      ensures !Occupies(r, FormatDate(d))
    {
      BookingOccupiesNoOtherDate(date, d, attendee, createdAt, itipMethod, status, code);
    }
    forall i, j, d: Day | 0 <= i < |s| && 0 <= j < |s| && Occupies(s[i], FormatDate(d)) && Occupies(s[j], FormatDate(d))
      ensures i == j
    {
      if i < |reservations| && j < |reservations| {
        assert s[i] == reservations[i] && s[j] == reservations[j];
      } else if i < |reservations| || j < |reservations| {
        // one of the two is the new record, which occupies only `date`, and no old record does
        assert false;
      }
    }
  }

  /** Cancelling a record, as `cancelReservation` does, keeps at most one record per date. */
  lemma CancelKeepsOneBookingPerDate(reservations: seq<Reservation>, i: nat)
    requires i < |reservations| && OneBookingPerDate(reservations)
    ensures OneBookingPerDate(reservations[i := reservations[i].(status := Cancelled)])
  {
  }

  /** The stored start of a booking converts back to the booked date. */
  lemma BookedStartRecoversDate(date: Day, attendee: string, createdAt: string, itipMethod: string,
                                status: string, code: string)
    ensures var r := NewReservation(date, attendee, createdAt, itipMethod, status, code);
            FromICalendar(r.dtStart) == FormatDate(date) && DayOfStamp(r.dtStart) == date
  {
    StampRoundTrip(date, OpeningTime);
    DayOfStampInverse(date, OpeningTime);
  }

  /** Lookup keeps exactly the matching records, with their multiplicities:
      no matching record is dropped and none is duplicated. */
  lemma {:induction false} LookupKeepsMatches(reservations: seq<Reservation>, patientEmail: string, r: Reservation)
    ensures multiset(LookupReservations(reservations, patientEmail))[r] ==
            if r.attendee == ContactAddress(patientEmail) then multiset(reservations)[r] else 0
  {
    if reservations != [] {
      LookupKeepsMatches(reservations[1..], patientEmail, r);
      assert reservations == [reservations[0]] + reservations[1..];
    }
  }

  /** Lookup distributes over appending a record: store order is kept. */
  lemma {:induction false} LookupAppend(reservations: seq<Reservation>, r: Reservation, patientEmail: string)
    ensures LookupReservations(reservations + [r], patientEmail) ==
            LookupReservations(reservations, patientEmail) +
            (if r.attendee == ContactAddress(patientEmail) then [r] else [])
  {
    var s := reservations + [r];
    var tail := if r.attendee == ContactAddress(patientEmail) then [r] else [];
    if reservations != [] {
      var rest := reservations[1..];
      var head := if reservations[0].attendee == ContactAddress(patientEmail) then [reservations[0]] else [];
      assert s[0] == reservations[0];
      assert s[1..] == rest + [r];
      LookupAppend(rest, r, patientEmail);
      calc {
        LookupReservations(s, patientEmail);
        head + LookupReservations(rest + [r], patientEmail);
        head + (LookupReservations(rest, patientEmail) + tail);
        (head + LookupReservations(rest, patientEmail)) + tail;
        LookupReservations(reservations, patientEmail) + tail;
      }
    } else {
      assert s == [r];
    }
  }

  /** Booking always prefixes `mailto:`, lookup only when it is missing: the
      new record is found under the attendee as given exactly when that did not
      already start with `mailto:`, and always under `mailto:` + attendee. */
  lemma LookupAfterBooking(reservations: seq<Reservation>, date: Day, attendee: string, createdAt: string,
                           itipMethod: string, status: string, code: string)
    ensures var r := NewReservation(date, attendee, createdAt, itipMethod, status, code);
            var after := reservations + [r];
            (!StartsWith(attendee, MailTo) ==> LookupReservations(after, attendee) == LookupReservations(reservations, attendee) + [r]) &&
            (StartsWith(attendee, MailTo) ==> LookupReservations(after, attendee) == LookupReservations(reservations, attendee)) &&
            LookupReservations(after, MailTo + attendee) == LookupReservations(reservations, MailTo + attendee) + [r]
  {
    var r := NewReservation(date, attendee, createdAt, itipMethod, status, code);
    LookupAppend(reservations, r, attendee);
    LookupAppend(reservations, r, MailTo + attendee);
    assert StartsWith(MailTo + attendee, MailTo);
    if StartsWith(attendee, MailTo) {
      assert |r.attendee| != |attendee|;
    }
  }

  /** Cancelling record `i` reserves a date exactly when another record occupies it. */
  lemma ReservedAfterCancel(reservations: seq<Reservation>, i: nat, inputDate: string)
    requires i < |reservations|
    ensures IsDateReserved(reservations[i := reservations[i].(status := Cancelled)], inputDate) <==>
            exists j :: 0 <= j < |reservations| && j != i && Occupies(reservations[j], inputDate)
  {
    var s := reservations[i := reservations[i].(status := Cancelled)];
    ReservedIffOccupied(s, inputDate);
    assert !Occupies(s[i], inputDate);
    if IsDateReserved(s, inputDate) {
      var j :| 0 <= j < |s| && Occupies(s[j], inputDate);
      assert j != i && s[j] == reservations[j];
    }
    if exists j :: 0 <= j < |reservations| && j != i && Occupies(reservations[j], inputDate) {
      var j :| 0 <= j < |reservations| && j != i && Occupies(reservations[j], inputDate);
      assert s[j] == reservations[j];
    }
  }

  /** Cancelling the same code again finds the same record, still answers true,
      and changes nothing more. */
  lemma CancelAgainChangesNothing(reservations: seq<Reservation>, code: string)
    requires FindIndexByCode(reservations, code) != -1
    ensures var i := FindIndexByCode(reservations, code);
            var after := reservations[i := reservations[i].(status := Cancelled)];
            FindIndexByCode(after, code) == i &&
            after[i := after[i].(status := Cancelled)] == after
  {
    var i := FindIndexByCode(reservations, code);
    var after := reservations[i := reservations[i].(status := Cancelled)];
    var k := FindIndexByCode(after, code);
    assert after[i].confirmationCode == code;
  }

  // ----- Termination of the searches -----

  /** Every day some prefix of some stored start could denote. */
  ghost function CandidateDays(reservations: seq<Reservation>): set<int>
  {
    set i, k | 0 <= i < |reservations| && 0 <= k <= |reservations[i].dtStart| :: ParseDateKey(reservations[i].dtStart[..k])
  }

  /** A reserved day is one of the finitely many candidate days. */
  lemma ReservedDayIsCandidate(reservations: seq<Reservation>, d: Day)
    ensures IsDateReserved(reservations, FormatDate(d)) ==> d in CandidateDays(reservations)
  {
    if IsDateReserved(reservations, FormatDate(d)) {
      ReservedIffOccupied(reservations, FormatDate(d));
      var i :| 0 <= i < |reservations| && Occupies(reservations[i], FormatDate(d));
      var key := DateKey(d);
      ParseDateKeyInverse(d);
      assert reservations[i].dtStart[..|key|] == key;
    }
  }

  /** A finite set of integers has an upper bound. */
  lemma {:induction false} UpperBound(s: set<int>) returns (m: int)
    ensures forall y :: y in s ==> y <= m
    decreases s
  {
    if s == {} {
      m := 0;
    } else {
      if forall y :: y !in s {
        assert false;
      }
      var x :| x in s;
      var rest := UpperBound(s - {x});
      m := if x > rest then x else rest;
      forall y | y in s
        ensures y <= m
      {
        if y != x {
          assert y in s - {x};
        }
      }
    }
  }

  /** No candidate day and no holiday lies beyond `h`. */
  ghost predicate IsHorizon(reservations: seq<Reservation>, holidays: set<Day>, h: Day)
  {
    (forall x :: x in CandidateDays(reservations) ==> x <= h) && (forall x :: x in holidays ==> x <= h)
  }

  /** Every store and holiday calendar has a horizon. */
  lemma BookingHorizon(reservations: seq<Reservation>, holidays: set<Day>) returns (horizon: Day)
    ensures IsHorizon(reservations, holidays, horizon)
  {
    var m := UpperBound(CandidateDays(reservations) + holidays);
    horizon := if m < 0 then 0 else m;
  }

  /** Past the horizon, each weekday is bookable. */
  lemma PastHorizonAvailable(reservations: seq<Reservation>, holidays: set<Day>, horizon: Day, d: Day)
    requires IsHorizon(reservations, holidays, horizon)
    ensures horizon < d && !IsWeekend(d) ==> Available(reservations, holidays, d)
  {
    ReservedDayIsCandidate(reservations, d);
  }

  /** How far a search cursor at `d` can still be from a bookable day: the
      distance to just past the horizon, then the rest of a weekend. */
  function SearchDistance(horizon: Day, d: Day): nat
  {
    if d <= horizon then horizon + 3 - d else WeekendRun(d)
  }

  /** A cursor that moves on from a day that may not be bookable gets closer. */
  lemma SearchDistanceShrinks(reservations: seq<Reservation>, holidays: set<Day>, horizon: Day, d: Day)
    requires IsHorizon(reservations, holidays, horizon) && !Available(reservations, holidays, d)
    ensures SearchDistance(horizon, d + 1) < SearchDistance(horizon, d)
  {
    PastHorizonAvailable(reservations, holidays, horizon, d);
    if horizon < d {
      WeekendShrinks(d);
    }
  }
}
