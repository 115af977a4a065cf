# Reservation analyzer, modelled in Dafny

The system reads office reservations (capacity, price, start date, optional
end date) from comma-separated lines. For each month it is asked about, it
reports two numbers:

- the expected revenue: every reservation that overlaps the month
  contributes its price prorated by the share of the month's days it is
  active;
- the unreserved capacity: the summed capacity of the reservations that do
  not overlap the month at all.

This project models that core and proves properties of it. The modules are:

- `Calendar` (`Calendar.dfy`): the proleptic Gregorian calendar of
  `LocalDate` and `YearMonth` (ISO 8601). Dates become day numbers, with day
  0 = 0000-01-01. Months become `(year, month)` pairs with a first and a
  last day. `DayNumberOrder` shows that day numbers order dates as
  `LocalDate` does. This is why the model can compare and subtract day
  numbers where the code compares dates and counts the days between them.
- `Reservations` (`Reservations.dfy`): the `Reservation` record and its two
  queries, `Overlaps` (`overlaps`) and `RevenueForMonth`
  (`revenueForMonth`). The end date is an `Option`; an open end is `None`
  rather than the `LocalDate.MAX` sentinel. Prices and revenue are `real`.
- `Analyzer` (`Analyzer.dfy`): `Analyze` (`analyze`) is a method with the
  source's two passes. The first loop sums the revenue of the overlapping
  entries and records them by position. This matches the source's `HashSet`,
  which compares reservations by identity, so equal duplicates stay
  distinct. The second loop sums the capacity of every entry not recorded.
  Capacities are Java `int`s. Their sum wraps around modulo 2^32 as
  `IntStream.sum` does (`JavaInt.dfy`).
- `Parsing` (`Parsing.dfy`): `ParseReservations` (`parseReservations`) is
  a loop with the source's `continue` skips. It is specified by `Classify`,
  which decides each line's fate: ignored, reported as invalid, or parsed.
  `Trim` is `String.trim`. `JavaSplit` is `String.split(",")`, which drops
  trailing empty fields. The field parsers are abstract partial functions.

## Model

| member | source | states |
|---|---|---|
| `Calendar.FirstDay` | ReservationAnalyzer.java:35 | `ym.atDay(1)` as a day number. `MonthsTile`, `MonthOrder`, `DayInMonthIff` and `EveryDayIsADate` prove that months laid end to end cover the day line without gaps or overlaps |
| `Calendar.LastDay` | ReservationAnalyzer.java:36 | `ym.atEndOfMonth()` as a day number: 27 to 30 days after the first day |
| `Calendar.DaysInMonth` | ReservationAnalyzer.java:50 | A month has 28 to 31 days, and 28 exactly for February of a non-leap year |
| `Calendar.YearLength` | ReservationAnalyzer.java:35-36 | Consecutive years start 365 days apart, or 366 after a Gregorian leap year |
| `Calendar.MonthsTile` | ReservationAnalyzer.java:35-36 | The day after a month's last day is the next month's first day, across a year end too |
| `Calendar.MonthOrder` | ReservationAnalyzer.java:35-36 | An earlier month ends before a later month begins |
| `Calendar.DayNumberOrder` | ReservationAnalyzer.java:45-48 | `isBefore` on dates is `<` on day numbers, and distinct dates have distinct day numbers |
| `Calendar.DayInMonthIff` | ReservationAnalyzer.java:35-36 | A date's day number lies between a month's first and last day exactly when the date is in that month |
| `Calendar.EveryDayIsADate` | ReservationAnalyzer.java:35-36 | Every integer is the day number of some valid date, so day numbers leave no gaps; with `DayNumberOrder`, dates and day numbers correspond one to one |
| `Calendar.EpochAnchor` | ReservationAnalyzer.java:50-51 | Day number 719528 is 1970-01-01, so day numbers are Java epoch days shifted by a constant |
| `JavaInt.Wrap` | ReservationAnalyzer.java:109-112 | The `int` that Java arithmetic gives for a mathematical value: the one in range that is congruent to it modulo 2^32 |
| `JavaInt.WrapAdd` | ReservationAnalyzer.java:109-112 | Wrapping the running `int` sum after every addition gives the wrapped true sum |
| `JavaInt.WrapInRange` | ReservationAnalyzer.java:109-112 | A sum that fits in an `int` is not changed by wrapping |
| `Reservations.Overlaps` | ReservationAnalyzer.java:34-39 | `overlaps`: the start is not after the month's last day and the end (unbounded when absent) is not before its first day. `OverlapsIffSharesDay` and `OpenEndedOverlapsIff` state its meaning |
| `Reservations.RevenueForMonth` | ReservationAnalyzer.java:42-54 | `revenueForMonth`: a reservation earns something in a month only if it overlaps the month and its end is not before its start. `RevenueIsDayFraction` states the amount |
| `Reservations.OverlapsIffSharesDay` | ReservationAnalyzer.java:34-39 | A reservation has an active day in a month exactly when it overlaps the month and its end is not before its start; both bounds are inclusive |
| `Reservations.WindowIffOverlaps` | ReservationAnalyzer.java:34-48 | The clamped window of `revenueForMonth` is non-empty exactly when `overlaps` holds and the end is not before the start |
| `Reservations.InvertedReservationEarnsNothing` | ReservationAnalyzer.java:42-48 | In every month, a reservation whose end precedes its start has no active day and earns 0 |
| `Reservations.InvertedReservationOverlapsWithoutRevenue` | ReservationAnalyzer.java:34-48 | Such a reservation can still overlap a month, so `overlaps` counts it as booked there |
| `Reservations.NoOverlapNoRevenue` | ReservationAnalyzer.java:42-48 | A month wholly before the start or wholly after the end is not overlapped and earns exactly 0 |
| `Reservations.ActiveDayCountBounds` | ReservationAnalyzer.java:50-51 | The active days number at most the month's days, and at least one when a well-formed reservation overlaps the month |
| `Reservations.RevenueBounds` | ReservationAnalyzer.java:50-53 | With a non-negative price, a month's revenue lies in [0, price] |
| `Reservations.RevenueIsDayFraction` | ReservationAnalyzer.java:42-54 | Revenue is price times (number of active days in the month) / (days in the month), for any reservation |
| `Reservations.FullPriceIffCoversMonth` | ReservationAnalyzer.java:50-53 | With a positive price, the revenue equals the whole price exactly when the reservation covers the whole month |
| `Reservations.OpenEndedOverlapsIff` | ReservationAnalyzer.java:37-38 | An open-ended reservation overlaps exactly the months from its start month on, however far ahead |
| `Reservations.SingleDayReservation` | ReservationAnalyzer.java:34-54 | A one-day reservation overlaps only its own month and earns there price / days-in-month, elsewhere 0 |
| `Reservations.FullJanuaryScenario` | ReservationAnalyzer.java:42-54 | 3100 for all of January 2013 earns 3100 in January 2013 |
| `Reservations.OpenFromMidJanuaryScenario` | ReservationAnalyzer.java:42-54 | 3000 open-ended from 2013-01-16 earns 3000 * 16 / 31 in January 2013 |
| `Reservations.PreviousYearScenario` | ReservationAnalyzer.java:34-54 | A reservation for all of 2012 does not overlap January 2013 and earns 0 there |
| `Analyzer.Analyze` | ReservationAnalyzer.java:96-112 | Revenue is the summed revenue of the overlapping entries; unreserved capacity is the wrapped summed capacity of the others; an empty list gives 0 and 0 |
| `Analyzer.PartitionIsExact` | ReservationAnalyzer.java:100-112 | Overlapping and non-overlapping groups together hold every entry exactly once, duplicates included |
| `Analyzer.GroupsAreSeparated` | ReservationAnalyzer.java:100-112 | The first group holds only overlapping entries of the list, the second only non-overlapping ones |
| `Analyzer.CapacityPartition` | ReservationAnalyzer.java:109-112 | In unbounded integers, the capacity of the non-overlapping entries plus that of the overlapping ones is the total capacity |
| `Analyzer.WrappedCapacityPartition` | ReservationAnalyzer.java:109-112 | For the `int` that `analyze` computes, the wrapped unreserved capacity plus the capacity of the overlapping entries wraps to the wrapped total capacity |
| `Analyzer.RevenueOnlyFromOverlapping` | ReservationAnalyzer.java:102-107 | Summing revenue over only the overlapping entries equals summing it over all entries |
| `Analyzer.TotalRevenueBounds` | ReservationAnalyzer.java:102-107 | With non-negative prices, total revenue lies between 0 and the summed prices of the overlapping entries |
| `Parsing.Trim` | ReservationAnalyzer.java:75-84 | `String.trim`, as applied to the line and to each field. `TrimSpec` states what it leaves |
| `Parsing.TrimSpec` | ReservationAnalyzer.java:75 | A trimmed string is an unchanged middle part of the string with only chars up to U+0020 around it. It is empty exactly when every char is at most U+0020, and otherwise starts and ends with a non-space |
| `Parsing.JavaSplit` | ReservationAnalyzer.java:76 | `line.split(",")`: the whole line when there is no comma, otherwise the fields without the trailing empty ones. `JavaSplitJoin`, `JoinSplit` and `DropTrailingEmptySpec` state what it yields |
| `Parsing.SplitFieldsSeparatorFree` | ReservationAnalyzer.java:76 | No field of a split contains the separator; with `JoinSplit` this pins the fields down |
| `Parsing.JoinSplit` | ReservationAnalyzer.java:76 | Joining the comma-separated fields gives back the line |
| `Parsing.SplitJoin` | ReservationAnalyzer.java:76 | Splitting a join of comma-free fields gives back the fields |
| `Parsing.JavaSplitJoin` | ReservationAnalyzer.java:76 | `split(",")` gives back two or more comma-free fields whose last one is not empty |
| `Parsing.DropTrailingEmptySpec` | ReservationAnalyzer.java:76 | `split` removes exactly the run of empty fields at the end |
| `Parsing.Classify` | ReservationAnalyzer.java:75-89 | What the loop body does with one line: skip it silently, report it as invalid, or add the reservation it parses to. `IgnoredIff` and `ParsedFields` state which case applies |
| `Parsing.Accepted` | ReservationAnalyzer.java:74-92 | The reservations the loop adds, in line order. `AcceptedConcat`, `AcceptedFromLines` and `ParseCount` state its properties |
| `Parsing.Rejected` | ReservationAnalyzer.java:74-92 | The lines the loop reports as invalid, in line order. `RejectedConcat` and `ParseCount` state its properties |
| `Parsing.IgnoredIff` | ReservationAnalyzer.java:75-77 | A line is skipped silently exactly when it is blank, starts with "Capacity", or has fewer than 3 fields |
| `Parsing.ParsedFields` | ReservationAnalyzer.java:78-89 | A line is reported invalid exactly when a field parse fails; otherwise its reservation is built from the trimmed fields, with no end exactly when the 4th field is missing or blank and the parsed 4th field otherwise |
| `Parsing.HeaderLineIgnored` | ReservationAnalyzer.java:75 | The header line "Capacity,Price,Start,End" is skipped |
| `Parsing.TwoFieldLineIgnored` | ReservationAnalyzer.java:76-77 | A line made of two comma-free fields, joined by one comma, is skipped silently whatever the fields hold, even when the second is empty |
| `Parsing.UnparsableCapacityRejected` | ReservationAnalyzer.java:75-89 | A line that is not blank, does not start with "Capacity", and splits into three or more fields (counted after trailing empty fields are dropped), whose capacity field does not parse, is reported invalid |
| `Parsing.AcceptedConcat` | ReservationAnalyzer.java:74-92 | The reservations read from two blocks of lines are those of the first block followed by those of the second: lines are independent and order is kept |
| `Parsing.RejectedConcat` | ReservationAnalyzer.java:74-92 | Likewise for the lines reported as invalid |
| `Parsing.ParseCount` | ReservationAnalyzer.java:74-92 | There are no more reservations plus messages than lines |
| `Parsing.AcceptedFromLines` | ReservationAnalyzer.java:74-92 | Every reservation read is what some input line parses to |
| `Parsing.ParseReservations` | ReservationAnalyzer.java:70-93 | The loop returns exactly the parsed reservations and the invalid lines, both in line order |

### Behaviour of the code worth noting

- `parseReservations` accepts a line whose end date precedes its start date
  (ReservationAnalyzer.java:78-86), and `Classify` does the same. Such a
  reservation has no active day and earns nothing in any month
  (`InvertedReservationEarnsNothing`). `overlaps` can still count it as
  booked for a month (`InvertedReservationOverlapsWithoutRevenue`). In that
  case `analyze` leaves its capacity out of the unreserved total.
- A one-day reservation earns price / daysInMonth in its month, not its
  whole price (ReservationAnalyzer.java:50-53). `SingleDayReservation`
  states this.

## Left out

- `readFileInList` (file reading with `Files.readAllLines`, errors printed and swallowed): I/O.
- `main` (the path prompt on standard input and the fixed list of months queried): I/O and configuration.
- The `printf` report of `analyze`, including the `%.2f` rounding: display only. `Analyze` returns the two numbers instead.
- The "Skipping invalid line" message on standard error: `ParseReservations` returns those lines as `rejected` instead.
- `double` arithmetic: prices and revenue are exact `real`s. Rounding, `NaN` and infinities are not modelled.
- `Integer.parseInt`, `Double.parseDouble` and `LocalDate.parse` are abstract functions in `FieldParsers` that return `None` where the library throws. `parseInt` yields an `Int32`. `parseDate` yields the date's day number; no generality is lost, because every integer is the day number of exactly one date (`EveryDayIsADate`, `DayNumberOrder`). The pattern `yyyy-MM-dd` is therefore not modelled.
- `YearMonth.parse` of the month argument: `Analyze` takes the month already parsed and requires it to be valid, instead of modelling the exception.
- The year range of `LocalDate` and `YearMonth` (plus or minus 999,999,999): day numbers are unbounded.
- The local `reservedCapacity` in `analyze` is never used, so it is not modelled.
