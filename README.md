# Patient visit scheduling: the availability and reservation engine

This project models, in Dafny, the engine of a single-provider office
scheduler (`reservationsHandler.js`). The engine keeps an append-only list of
reservation records. Each record has:

- a DTSTART stamp in the UTC DATE-TIME form `YYYYMMDDThhmmssZ` of section
  3.3.5 of RFC 5545;
- a `mailto:` attendee;
- a DTSTAMP, a METHOD and a STATUS;
- an eight-character confirmation code.

It answers these requests:

- **Is a date reserved?** A date is reserved when some record's start begins
  with the date's digits and that record's status is not `CANCELLED`.
- **Next free business day.** This is the first day strictly after the given
  day that is not a weekend, not a holiday and not reserved.
- **First `n` free business days.** These are counted from the given day,
  inclusive.
- **Bookings.**
  - Booking refuses a weekend, a holiday or a reserved date. Otherwise it
    appends a record at 09:00:00 UTC and returns its code.
  - Lookup returns every record of an attendee, in store order.
  - Cancellation marks the first record carrying a code as `CANCELLED`.

The modules:

- `Strings` (`strings.dfy`) holds the string helpers: prefix tests,
  `replace(/c/g, '')`, and cutting at a separator.
- `Decimal` (`decimal.dfy`) holds decimal digits, zero padding and parsing.
- `CalendarRules` (`calendar_rules.dfy`) holds the calendar rules the engine
  consults:
  - dates are day numbers counted from 1970-01-01;
  - the weekday and the weekend;
  - a holiday calendar given as a finite set of days;
  - the Gregorian civil date of a day, and the day of a civil date;
  - the `YYYY-MM-DD` rendering;
  - conversion between that rendering and the DTSTART stamp.
- `Reservations` (`reservations.dfy`) holds the engine itself. The class
  `Scheduler` owns the store as a `seq<Reservation>` field and the holiday
  calendar as a constant. It has methods for:
  - the two searches, which are the loops of the source;
  - booking, which appends;
  - cancellation, which updates one record in place.

  The date query and the lookup are functions.
- `Scenarios` (`scenarios.dfy`) restates the scheduler's tests
  (`spec/schedulerSpec.js`) about the model.

What is proved:

- **The reserved test.** It is characterised exactly, in both directions.
- **Termination of both searches.** Each search ends on every finite store
  and every finite holiday calendar.
  - A reserved day is one of finitely many days that some prefix of a stored
    start can denote. This needs the date key to be injective, which is proved
    from the round trip between civil dates and day numbers.
  - Past the largest such day and the largest holiday, every weekday is free.
- **The single-date search** returns the first free day strictly after its
  start. It does so even when the start itself is free.
- **The multi-date search** returns exactly `n` days, or none when `n <= 0`.
  The days are free, strictly increasing, at or after the start, and skip no
  free day. Each is rendered as `YYYY-MM-DD`.
- **The exact-match test is redundant.** The multi-date search repeats the
  reserved test as an exact stamp test, and that second test can never reject
  a day the first one accepted.
- **Booking** refuses exactly the unavailable days and leaves the store
  unchanged when it does.
  - Otherwise it appends one record. That record reserves its own date
    unless the caller's STATUS is `CANCELLED`; a `CANCELLED` booking still
    returns its code but leaves the date unreserved.
  - For years below 10000 the record reserves no other date.
  - Booking and cancellation both keep every date occupied by at most one
    record (bookings for years below 10000).
  - The stored start converts back to the booked date.
- **Lookup** keeps exactly the matching records, with their multiplicities and
  in store order. A booking is found under the attendee as given only when the
  attendee did not already start with `mailto:`.
- **Cancellation** changes only the first record with the code, or nothing
  when no record has it.
  - A second cancellation answers true again and changes nothing further.
  - Once a record is cancelled, its date is reserved exactly when another
    record still occupies it.

Two behaviours of the source are kept as written:

- The STATUS a caller passes is stored as given, so it is not limited to
  `CONFIRMED` or `CANCELLED`. Any status other than `CANCELLED` occupies its
  date.
- Cancelling an already cancelled record is a defined operation that answers
  true.

## Model

| member | source | states |
|---|---|---|
| Reservations.IsDateReserved | reservationsHandler.js:9-16 | `isDateReserved` as a recursive `some` over the store; it has no ensures of its own, `ReservedIffOccupied` characterises it |
| Reservations.ReservedIffOccupied | reservationsHandler.js:9-16 | a date is reserved iff some record's start begins with the date with its dashes removed and that record is not CANCELLED; the empty store reserves nothing |
| Reservations.ReservedDayIsCandidate | reservationsHandler.js:11-14 | a reserved day is the day denoted by some prefix of some stored start, so only finitely many days are reserved |
| Reservations.Scheduler.constructor | reservationsHandler.js:32-35 | a store whose file does not exist reads as the empty list; the holiday calendar is the one given |
| Reservations.Scheduler.FindNextAvailableDate | reservationsHandler.js:18-28 | the result is strictly after the start, free (not weekend, holiday or reserved), every day strictly between is not free, and the returned text is the result's `YYYY-MM-DD` rendering |
| Reservations.BookingHorizon | reservationsHandler.js:22-26 | every store and holiday calendar has a day beyond all reservable candidate days and all holidays |
| Reservations.PastHorizonAvailable | reservationsHandler.js:22-26 | beyond that horizon every weekday is free, so the scans always find a day |
| Reservations.SearchDistanceShrinks | reservationsHandler.js:22-26 | moving the cursor past a day that is not free strictly decreases the distance to a free day: the termination measure of both scans |
| CalendarRules.WeekendShrinks | reservationsHandler.js:26 | weekends are two days long: moving past a weekend day shortens the remaining weekend run |
| Reservations.Scheduler.CheckDay | reservationsHandler.js:49-55 | a day is accepted iff it is free (weekday, not a holiday, not reserved), and an accepted day comes back as its `YYYY-MM-DD` rendering after the round trip through its stamp |
| Reservations.Scheduler.FindNextAvailableDates | reservationsHandler.js:41-60 | exactly `n` days (none when `n <= 0`), each free and at or after the start, strictly increasing, none skipped, each returned text the rendering of its day |
| Reservations.AvailableDaysSound | reservationsHandler.js:48-58 | every day the scan collects from a range lies in the range and is free |
| Reservations.AvailableDaysIncreasing | reservationsHandler.js:48-58 | the days the scan collects are strictly increasing |
| Reservations.AvailableDaysComplete | reservationsHandler.js:48-58 | every free day of the scanned range is collected |
| Reservations.AvailableDatesRenderDays | reservationsHandler.js:50-53 | the texts collected are, position by position, the renderings of the days collected |
| Reservations.ExactMatchIsRedundant | reservationsHandler.js:49-53 | an active record whose start equals a stamp beginning with the date's digits already makes the date reserved, so the exact-match test rejects nothing the reserved test accepted |
| Reservations.HasActiveStart | reservationsHandler.js:51 | the exact-match test of the multi-date search: some active record starts at exactly the stamp; it has no ensures of its own, `ExactMatchIsRedundant` and `FreeDayStampIsFree` characterise it |
| Reservations.FreeDayStampIsFree | reservationsHandler.js:49-53 | on a day that is not reserved, no active record starts at the day's 09:00:00 stamp, and converting that stamp back gives the day's rendering |
| Reservations.Scheduler.MakeReservation | reservationsHandler.js:63-93 | a weekend, holiday or reserved date returns no code and leaves the store unchanged; otherwise it returns the fresh 8-hex-digit code and the store becomes the old store plus one record: the 09:00:00 stamp of the date, `mailto:` + attendee, the caller's DTSTAMP, METHOD and STATUS, and the code |
| Reservations.ReservedAfterAppend | reservationsHandler.js:89 | after appending a record, a date is reserved iff it was reserved before or the new record occupies it |
| Reservations.BookingOccupiesItsDate | reservationsHandler.js:79-86 | the new record occupies its own date iff its caller-supplied status is not CANCELLED |
| Reservations.BookingOccupiesNoOtherDate | reservationsHandler.js:79-86 | the new record occupies no other date (for years below 10000) |
| Reservations.BookingReservesOnlyItsDate | reservationsHandler.js:63-93 | booking makes its date reserved iff it was already reserved or the status is not CANCELLED, and, for years below 10000, leaves every other date's reserved status unchanged |
| Reservations.NewReservation | reservationsHandler.js:79-86 | the record a booking appends; it has no ensures of its own, `BookingOccupiesItsDate`, `BookingOccupiesNoOtherDate` and `BookedStartRecoversDate` state what it holds |
| Reservations.BookingKeepsOneBookingPerDate | reservationsHandler.js:63-93 | if no date is occupied by two records, booking an unreserved date keeps it so (for years below 10000) |
| Reservations.CancelKeepsOneBookingPerDate | reservationsHandler.js:104-106 | cancelling a record keeps every date occupied by at most one record |
| Reservations.BookedStartRecoversDate | reservationsHandler.js:65 | the stored start converts back to the booked date's rendering and parses back to the booked day |
| Reservations.ContactAddress | reservationsHandler.js:96 | the lookup address always starts with `mailto:`; it is the email itself when that already does, and otherwise `mailto:` + email |
| Reservations.LookupReservations | reservationsHandler.js:95-98 | `lookupReservations` as a recursive filter; it has no ensures of its own, `LookupKeepsMatches` and `LookupAppend` characterise it |
| Reservations.LookupKeepsMatches | reservationsHandler.js:95-98 | each record occurs in the lookup result exactly as often as in the store when its attendee is the lookup address, and not at all otherwise (cancelled records included) |
| Reservations.LookupAppend | reservationsHandler.js:97 | the lookup result keeps store order: appending a record appends it to the result iff it matches |
| Reservations.LookupAfterBooking | reservationsHandler.js:95-98 | a new booking is found under `mailto:` + attendee, and under the attendee as given iff that did not already start with `mailto:` (booking always prefixes, lookup only when absent) |
| Reservations.FindIndexByCode | reservationsHandler.js:104 | the index of the first record carrying the code, or -1 exactly when no record carries it |
| Reservations.Scheduler.CancelReservation | reservationsHandler.js:101-113 | true iff some record carries the code; then only the first such record changes, to CANCELLED, whatever its status was; otherwise the store is unchanged |
| Reservations.CancelAgainChangesNothing | reservationsHandler.js:104-108 | cancelling the same code again finds the same record and leaves the store as it is |
| Reservations.ReservedAfterCancel | reservationsHandler.js:105-106 | once record `i` is cancelled, a date is reserved iff some other record occupies it |
| CalendarRules.IsHoliday | reservationsHandler.js:68 | the `isHoliday` test, membership in the holiday calendar; it has no ensures of its own, `NextDateScenario` and `BookingScenario` state that the holiday 2024-07-04 is never offered and is refused |
| CalendarRules.IsWeekend | reservationsHandler.js:26 | the `isWeekend` test: Saturday or Sunday under the weekday rule; it has no ensures of its own, `WeekendShrinks` and `WeekendExamples` state what it means |
| CalendarRules.FormatDate | reservationsHandler.js:27 | the `formatDate` rendering `YYYY-MM-DD`; it has no ensures of its own, `StampRoundTrip`, `ParseDateKeyInverse` and `DateKeyInjective` state that it loses nothing |
| CalendarRules.ToICalendar | reservationsHandler.js:65 | the `convertToICalendarFormat` stamp; it has no ensures of its own, `StampStartsWithKey` and `StampRoundTrip` state what it keeps |
| CalendarRules.FromICalendar | reservationsHandler.js:53 | the `convertFromICalendarFormat` conversion back; it has no ensures of its own, `StampRoundTrip` states that it inverts `ToICalendar` on rendered dates |
| CalendarRules.StampRoundTrip | reservationsHandler.js:50-53 | converting a rendered date to a stamp and back recovers the rendering, for any time of day |
| CalendarRules.StampStartsWithKey | reservationsHandler.js:65 | a date's stamp starts with the date's dashless digits, which is the prefix the reserved test looks for |
| CalendarRules.DayOfStampInverse | reservationsHandler.js:65 | the date digits of a day's stamp parse back to that day |
| CalendarRules.ParseDateKeyInverse | reservationsHandler.js:11 | a day's dashless `YYYYMMDD` digits parse back to that day |
| CalendarRules.DateKeyInjective | reservationsHandler.js:11 | different days have different dashless digits |
| CalendarRules.CivilFromDaysInverse | reservationsHandler.js:27 | a valid Gregorian date maps to a day number that maps back to it |
| CalendarRules.DaysFromCivilInverse | reservationsHandler.js:27 | the civil date of a day number maps back to that day number |
| CalendarRules.LeapYearStep | reservationsHandler.js:27 | the count of leap years grows by one exactly across a Gregorian leap year |
| Scenarios.WeekendExamples | spec/schedulerSpec.js:20-27 | days 19784, 19785 and 19786 are the civil dates 2024-03-02, 2024-03-03 and 2024-03-04, and the first two are weekend days while the third is not |
| Scenarios.ToICalendarExample | spec/schedulerSpec.js:29-33 | 2024-07-04 at 09:00:00 converts to `20240704T090000Z` |
| Scenarios.NextDateScenario | spec/schedulerSpec.js:112-122 | whatever the store and start day, the next free day is a later weekday and never 2024-07-04 |
| Scenarios.BookingScenario | spec/schedulerSpec.js:40-67 | on a fresh store a holiday is refused, a free weekday is booked with the fresh code, a second booking of it is refused, and a lookup under the attendee finds one record (none when the attendee already carried `mailto:`) |
| Scenarios.CancellationScenario | spec/schedulerSpec.js:69-73 | a booked code cancels with true, cancels again with true, an unknown code answers false, and the freed day can be booked again |
| Scenarios.IndependenceDayRendering | spec/schedulerSpec.js:75-78 | the holiday day 19908 renders as 2024-07-04 |
| Scenarios.FromICalendarExample | spec/schedulerSpec.js:85-88 | `20240704T090000Z` converts back to 2024-07-04 |
| Scenarios.LeapDayRendering | spec/schedulerSpec.js:128-130 | day 19782 is 2024-02-29 and renders as itself |

## Left out

- `index.js`, the prompt loop with its console output and input validation, is interactive I/O and is not modelled.
- Reading and writing `reservations.json` is not modelled. The store is the `reservations` field: a read is that field and a write assigns it. A store file that cannot be parsed as JSON has no counterpart.
- The confirmation code, the first eight hex digits of the SHA-256 of a random UUID, is the `freshCode` parameter of `MakeReservation`, required to be eight lowercase hex characters. Codes are not checked for uniqueness, by the source or by the model.
- DTSTAMP, the wall-clock time of booking, is the opaque `createdAt` parameter.
- The Promise around `cancelReservation` is left out; cancellation is a plain synchronous method.
- The console message printed on a refused booking is left out.
- MakeReservation takes a day number in place of the caller's DTSTART text. The source tests and stamps the text as given (reservationsHandler.js:65, 68), so a text that is not the zero-padded rendering of a day, such as `2024-7-5`, is not modelled; the front end refuses text not shaped `YYYY-MM-DD` (index.js:49).
- JavaScript `Date` arithmetic is left out. The source keeps two cursors, one set to 09:00 UTC and one in local time, and moves them with `setDate`. Both become a single day number, so the behaviour that depends on the host's time zone is not captured.
- utils.js is not part of this model. In its place:
  - weekends follow from the weekday of the day number, with 1970-01-01 a Thursday;
  - holidays are a finite set given to the scheduler, and `DefaultHolidays` holds only 2024-07-04, the holiday the tests name;
  - dates render as `YYYY-MM-DD`, with the year zero-padded to at least four digits;
  - a stamp is the dashless date, `T`, the colonless time and `Z`;
  - converting a stamp back cuts at the first `T` and puts one dash before the last four digits and one before the last two.
- Days before 1970-01-01 are left out by choice: day numbers are natural numbers. The front end refuses past dates only for bookings; the start of the multi-date search is passed on unchecked (index.js:37), so an earlier start, possible in the source, is outside the model.
- BookingOccupiesNoOtherDate: stated for years below 10000 only. With a five-digit year, the dashless digits of one date can be a prefix of another date's stamp.
- BookingReservesOnlyItsDate: the "no other date" half holds for years below 10000 only, for the same reason; the own-date half holds for every year.
- BookingKeepsOneBookingPerDate: stated for years below 10000 only, for the same reason; beyond that a booking can occupy a date another record already holds.
- Line 50 calls `convertToICalendarFormat` without a time. The model gives that call the 09:00:00 time used at line 65. `ExactMatchIsRedundant` holds for any stamp that begins with the date's digits, whatever time follows.
- The booking test at spec/schedulerSpec.js:40-49 books an attendee that already starts with `mailto:`, so the stored attendee carries the prefix twice. The lookup test at 63-67 asks for the bare address. `LookupAfterBooking` and `BookingScenario` state what the model then finds, which is not that record. The test suite relies on leftover on-disk state, such as the hard-coded code at spec/schedulerSpec.js:70, and the scenarios use a fresh store instead.
