/** A reservation of office capacity over an inclusive range of days, and
    the two questions the analysis asks of it for a calendar month: does it
    overlap the month, and what revenue does it earn in the month. */
module Reservations {
  import opened Wrappers
  import opened JavaInt
  import opened Calendar

  /** `start` and `end` are day numbers, both inclusive; `end == None` is an
      open-ended reservation. `price` is the reservation's flat price. */
  datatype Reservation = Reservation(capacity: Int32, price: real, start: int, end: Option<int>)

  /** The end, when there is one, is not before the start. Nothing in the
      system enforces this. */
  predicate WellFormed(r: Reservation) {
    r.end.Some? ==> r.start <= r.end.value
  }

  /** The reservation is active on day `d`. */
  predicate ActiveOn(r: Reservation, d: int) {
    r.start <= d && (r.end.None? || d <= r.end.value)
  }

  /** The days from `lo` to `hi`, both included. */
  function DayRange(lo: int, hi: int): (days: set<int>)
    ensures forall d :: d in days <==> lo <= d <= hi
    ensures |days| == if lo <= hi then hi - lo + 1 else 0
    decreases hi - lo
  {
    if hi < lo then {} else DayRange(lo, hi - 1) + {hi}
  }

  /** The days of `ym`. */
  function MonthDays(ym: YearMonth): set<int>
    requires ValidMonth(ym)
  {
    DayRange(FirstDay(ym), LastDay(ym))
  }

  /** Days of `ym` on which the reservation is active. */
  function ActiveDays(r: Reservation, ym: YearMonth): set<int>
    requires ValidMonth(ym)
  {
    set d | d in MonthDays(ym) && ActiveOn(r, d)
  }

  /** The reservation is active on every day of `ym`. */
  predicate CoversMonth(r: Reservation, ym: YearMonth)
    requires ValidMonth(ym)
  {
    r.start <= FirstDay(ym) && (r.end.None? || LastDay(ym) <= r.end.value)
  }

  /** `Reservation.overlaps`: the start is not after the last day of the
      month and the end (unbounded when absent) is not before its first. */
  predicate Overlaps(r: Reservation, ym: YearMonth)
    requires ValidMonth(ym)
  {
    r.start <= LastDay(ym) && (r.end.None? || FirstDay(ym) <= r.end.value)
  }

  /** First day of the reservation clamped to the month. */
  function ActiveStart(r: Reservation, ym: YearMonth): int
    requires ValidMonth(ym)
  {
    if r.start < FirstDay(ym) then FirstDay(ym) else r.start
  }

  /** Last day of the reservation clamped to the month. */
  function ActiveEnd(r: Reservation, ym: YearMonth): int
    requires ValidMonth(ym)
  {
    if r.end.None? || r.end.value > LastDay(ym) then LastDay(ym) else r.end.value
  }

  /** `Reservation.revenueForMonth`: zero when the clamped window is empty,
      otherwise the flat price scaled by the fraction of the month's days
      in the window. The reservation's own length plays no part. */
  function RevenueForMonth(r: Reservation, ym: YearMonth): (revenue: real)
    requires ValidMonth(ym)
    ensures revenue != 0.0 ==> Overlaps(r, ym) && WellFormed(r)
  {
    var activeStart := ActiveStart(r, ym);
    var activeEnd := ActiveEnd(r, ym);
    if activeEnd < activeStart then 0.0
    else
      var daysInMonth := (LastDay(ym) + 1) - FirstDay(ym);
      var activeDays := (activeEnd + 1) - activeStart;
      Prorate(r.price, activeDays, daysInMonth)
  }

  /** `price * ((double) activeDays / daysInMonth)`, in exact arithmetic. */
  function Prorate(price: real, activeDays: int, daysInMonth: int): real
    requires 0 < daysInMonth
  {
    price * (activeDays as real / daysInMonth as real)
  }

  /** The revenue in terms of the clamped window and the month's length. */
  lemma RevenueOfWindow(r: Reservation, ym: YearMonth)
    requires ValidMonth(ym)
    ensures var lo, hi := ActiveStart(r, ym), ActiveEnd(r, ym);
            RevenueForMonth(r, ym) == if hi < lo then 0.0 else Prorate(r.price, hi + 1 - lo, DaysInMonth(ym))
  {
  }

  /** With a non-negative price, the revenue of any month lies between 0
      and the price. */
  lemma RevenueBounds(r: Reservation, ym: YearMonth)
    requires ValidMonth(ym) && 0.0 <= r.price
    ensures 0.0 <= RevenueForMonth(r, ym) <= r.price
  {
    var lo, hi := ActiveStart(r, ym), ActiveEnd(r, ym);
    if lo <= hi {
      RevenueOfWindow(r, ym);
      FractionBound(r.price, hi + 1 - lo, DaysInMonth(ym));
    }
  }

  /** A share of at most one of a non-negative price is at most the price. */
  lemma FractionBound(price: real, part: int, whole: int)
    requires 0 <= part <= whole && 0 < whole
    ensures 0.0 <= price ==> 0.0 <= Prorate(price, part, whole) <= price
  {
    var f := part as real / whole as real;
    assert 0.0 <= f <= 1.0;
    if 0.0 <= price {
      assert price * f <= price * 1.0;
    }
  }

  /** A reservation has an active day in a month exactly when it overlaps
      the month and its end is not before its start; both bounds of both
      intervals count. */
  lemma OverlapsIffSharesDay(r: Reservation, ym: YearMonth)
    requires ValidMonth(ym)
    ensures ActiveDays(r, ym) != {} <==> Overlaps(r, ym) && WellFormed(r)
  {
    ActiveDaysAreWindow(r, ym);
    if Overlaps(r, ym) && WellFormed(r) {
      assert ActiveStart(r, ym) in ActiveDays(r, ym);
    }
  }

  /** The clamped window of `revenueForMonth` is non-empty exactly when the
      reservation overlaps the month and its end is not before its start:
      the two methods agree on the well-formed reservations only. */
  lemma WindowIffOverlaps(r: Reservation, ym: YearMonth)
    requires ValidMonth(ym)
    ensures ActiveStart(r, ym) <= ActiveEnd(r, ym) <==> Overlaps(r, ym) && WellFormed(r)
  {
  }

  /** A reservation whose end precedes its start has no active day and
      earns nothing in any month, whether or not it overlaps it. */
  lemma InvertedReservationEarnsNothing(r: Reservation, ym: YearMonth)
    requires ValidMonth(ym)
    ensures !WellFormed(r) ==> ActiveDays(r, ym) == {} && RevenueForMonth(r, ym) == 0.0
  {
    OverlapsIffSharesDay(r, ym);
    WindowIffOverlaps(r, ym);
  }

  /** Such a reservation can still overlap a month: one whose end precedes
      its start, both inside the month, counts as booked for the month. */
  lemma InvertedReservationOverlapsWithoutRevenue()
    ensures var ym := YearMonth(2013, 1);
            var r := Reservation(1, 100.0, FirstDay(ym) + 19, Some(FirstDay(ym) + 9));
            !WellFormed(r) && Overlaps(r, ym) && ActiveDays(r, ym) == {} && RevenueForMonth(r, ym) == 0.0
  {
    var ym := YearMonth(2013, 1);
    var r := Reservation(1, 100.0, FirstDay(ym) + 19, Some(FirstDay(ym) + 9));
    InvertedReservationEarnsNothing(r, ym);
  }

  /** A month that ends before the reservation starts, or begins after it
      ends, is not overlapped and earns exactly 0. */
  lemma NoOverlapNoRevenue(r: Reservation, ym: YearMonth)
    requires ValidMonth(ym)
    requires LastDay(ym) < r.start || (r.end.Some? && r.end.value < FirstDay(ym))
    ensures !Overlaps(r, ym)
    ensures RevenueForMonth(r, ym) == 0.0
    ensures ActiveDays(r, ym) == {}
  {
    RevenueOfWindow(r, ym);
    ActiveDaysAreWindow(r, ym);
  }

  /** A month has at most as many active days as it has days; a month that
      a well-formed reservation overlaps has at least one. */
  lemma ActiveDayCountBounds(r: Reservation, ym: YearMonth)
    requires ValidMonth(ym)
    ensures |ActiveDays(r, ym)| <= DaysInMonth(ym)
    ensures WellFormed(r) && Overlaps(r, ym) ==> 1 <= |ActiveDays(r, ym)|
  {
    ActiveDaysAreWindow(r, ym);
  }

  /** The active days of a month are exactly the clamped window. */
  lemma ActiveDaysAreWindow(r: Reservation, ym: YearMonth)
    requires ValidMonth(ym)
    ensures ActiveDays(r, ym) == DayRange(ActiveStart(r, ym), ActiveEnd(r, ym))
  {
    var lo, hi := ActiveStart(r, ym), ActiveEnd(r, ym);
    forall d ensures d in ActiveDays(r, ym) <==> lo <= d <= hi {
    }
  }

  /** The revenue is the price times the fraction of the month's days on
      which the reservation is active, counted as a set of days; this holds
      for every reservation, well formed or not. */
  lemma RevenueIsDayFraction(r: Reservation, ym: YearMonth)
    requires ValidMonth(ym)
    ensures RevenueForMonth(r, ym) == Prorate(r.price, |ActiveDays(r, ym)|, DaysInMonth(ym))
  {
    var lo, hi := ActiveStart(r, ym), ActiveEnd(r, ym);
    ActiveDaysAreWindow(r, ym);
    RevenueOfWindow(r, ym);
    if hi < lo {
      assert |ActiveDays(r, ym)| == 0;
      assert Prorate(r.price, 0, DaysInMonth(ym)) == 0.0;
    } else {
      assert |ActiveDays(r, ym)| == hi + 1 - lo;
    }
  }

  /** With a positive price, the revenue is the whole price exactly when the
      reservation covers the whole month. */
  lemma FullPriceIffCoversMonth(r: Reservation, ym: YearMonth)
    requires ValidMonth(ym) && 0.0 < r.price
    ensures RevenueForMonth(r, ym) == r.price <==> CoversMonth(r, ym)
  {
    var lo, hi := ActiveStart(r, ym), ActiveEnd(r, ym);
    RevenueOfWindow(r, ym);
    if lo <= hi {
      ProrateIsWholeIff(r.price, (hi + 1) - lo, DaysInMonth(ym));
    }
  }

  /** A positive price prorated by a fraction is the whole price exactly
      when the fraction is one. */
  lemma ProrateIsWholeIff(price: real, part: int, whole: int)
    requires 0.0 < price && 0 < whole
    ensures Prorate(price, part, whole) == price <==> part == whole
  {
    var f := part as real / whole as real;
    if price * f == price {
      assert price * f == price * 1.0;
      assert f == 1.0;
    }
  }

  /** An open-ended reservation overlaps exactly the months from its start
      month onwards, however far in the future. */
  lemma OpenEndedOverlapsIff(r: Reservation, s: Date, ym: YearMonth)
    requires ValidDate(s) && ValidMonth(ym)
    requires r.start == DayNumber(s) && r.end.None?
    ensures Overlaps(r, ym) <==> !MonthBefore(ym, MonthOf(s))
  {
    if MonthBefore(ym, MonthOf(s)) {
      MonthOrder(ym, MonthOf(s));
    } else if MonthBefore(MonthOf(s), ym) {
      MonthOrder(MonthOf(s), ym);
    }
  }

  /** A one-day reservation overlaps only the month holding its day, and
      earns there one day's share of its price, not the whole price. */
  lemma SingleDayReservation(r: Reservation, s: Date, ym: YearMonth)
    requires ValidDate(s) && ValidMonth(ym)
    requires r.start == DayNumber(s) && r.end == Some(r.start)
    ensures Overlaps(r, ym) <==> MonthOf(s) == ym
    ensures RevenueForMonth(r, ym) == if MonthOf(s) == ym then Prorate(r.price, 1, DaysInMonth(ym)) else 0.0
  {
    DayInMonthIff(s, ym);
  }

  /** 5 offices for 3100 over the whole of January 2013 earn 3100 in
      January 2013. */
  lemma FullJanuaryScenario()
    ensures var r := Reservation(5, 3100.0, DayNumber(Date(2013, 1, 1)), Some(DayNumber(Date(2013, 1, 31))));
            Overlaps(r, YearMonth(2013, 1)) && RevenueForMonth(r, YearMonth(2013, 1)) == 3100.0
  {
  }

  /** 10 offices for 3000 from 2013-01-16 with no end earn 16/31 of 3000 in
      January 2013. */
  lemma OpenFromMidJanuaryScenario()
    ensures var r := Reservation(10, 3000.0, DayNumber(Date(2013, 1, 16)), None);
            Overlaps(r, YearMonth(2013, 1)) && RevenueForMonth(r, YearMonth(2013, 1)) == 3000.0 * 16.0 / 31.0
  {
  }

  /** A reservation for the whole of 2012 does not overlap January 2013 and
      earns nothing in it. */
  lemma PreviousYearScenario()
    ensures var r := Reservation(4, 1000.0, DayNumber(Date(2012, 1, 1)), Some(DayNumber(Date(2012, 12, 31))));
            !Overlaps(r, YearMonth(2013, 1)) && RevenueForMonth(r, YearMonth(2013, 1)) == 0.0
  {
  }
}
