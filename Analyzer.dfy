/** `ReservationAnalyzer.analyze`: for one month, the revenue of the
    reservations that overlap it and the capacity of those that do not. */
module Analyzer {
  import opened JavaInt
  import opened Calendar
  import opened Reservations

  /** The reservations that overlap `ym`, in list order. */
  function Overlapping(rs: seq<Reservation>, ym: YearMonth): seq<Reservation>
    requires ValidMonth(ym)
  {
    if rs == [] then []
    else
      var last := rs[|rs| - 1];
      Overlapping(rs[..|rs| - 1], ym) + (if Overlaps(last, ym) then [last] else [])
  }

  /** The reservations that do not overlap `ym`, in list order. */
  function NotOverlapping(rs: seq<Reservation>, ym: YearMonth): seq<Reservation>
    requires ValidMonth(ym)
  {
    if rs == [] then []
    else
      var last := rs[|rs| - 1];
      NotOverlapping(rs[..|rs| - 1], ym) + (if Overlaps(last, ym) then [] else [last])
  }

  /** Summed capacity, in unbounded integers. */
  function TotalCapacity(rs: seq<Reservation>): int {
    if rs == [] then 0 else TotalCapacity(rs[..|rs| - 1]) + rs[|rs| - 1].capacity
  }

  /** Summed price. */
  function TotalPrice(rs: seq<Reservation>): real {
    if rs == [] then 0.0 else TotalPrice(rs[..|rs| - 1]) + rs[|rs| - 1].price
  }

  /** Summed revenue in `ym`. */
  function TotalRevenue(rs: seq<Reservation>, ym: YearMonth): real
    requires ValidMonth(ym)
  {
    if rs == [] then 0.0 else TotalRevenue(rs[..|rs| - 1], ym) + RevenueForMonth(rs[|rs| - 1], ym)
  }

  /** The two groups together hold every entry of the list exactly once,
      duplicates included. */
  lemma {:induction false} PartitionIsExact(rs: seq<Reservation>, ym: YearMonth)
    requires ValidMonth(ym)
    ensures multiset(Overlapping(rs, ym)) + multiset(NotOverlapping(rs, ym)) == multiset(rs)
    ensures |Overlapping(rs, ym)| + |NotOverlapping(rs, ym)| == |rs|
  {
    if rs != [] {
      var init, last := rs[..|rs| - 1], rs[|rs| - 1];
      PartitionIsExact(init, ym);
      assert rs == init + [last];
    }
  }

  /** Each group holds only entries of the list, the first only overlapping
      ones and the second only the others. */
  lemma {:induction false} GroupsAreSeparated(rs: seq<Reservation>, ym: YearMonth)
    requires ValidMonth(ym)
    ensures forall r <- Overlapping(rs, ym) :: r in rs && Overlaps(r, ym)
    ensures forall r <- NotOverlapping(rs, ym) :: r in rs && !Overlaps(r, ym)
  {
    if rs != [] {
      var init, last := rs[..|rs| - 1], rs[|rs| - 1];
      GroupsAreSeparated(init, ym);
      assert rs == init + [last];
    }
  }

  /** Unreserved capacity and the capacity of the overlapping reservations
      add up to the capacity of the whole list. */
  lemma {:induction false} CapacityPartition(rs: seq<Reservation>, ym: YearMonth)
    requires ValidMonth(ym)
    ensures TotalCapacity(Overlapping(rs, ym)) + TotalCapacity(NotOverlapping(rs, ym)) == TotalCapacity(rs)
  {
    if rs != [] {
      var init, last := rs[..|rs| - 1], rs[|rs| - 1];
      CapacityPartition(init, ym);
      if Overlaps(last, ym) {
        assert Overlapping(rs, ym) == Overlapping(init, ym) + [last];
        assert NotOverlapping(rs, ym) == NotOverlapping(init, ym);
        TotalCapacitySnoc(Overlapping(init, ym), last);
      } else {
        assert Overlapping(rs, ym) == Overlapping(init, ym);
        assert NotOverlapping(rs, ym) == NotOverlapping(init, ym) + [last];
        TotalCapacitySnoc(NotOverlapping(init, ym), last);
      }
    }
  }

  /** The same partition for the `int` that `analyze` computes: the wrapped
      unreserved capacity plus the capacity of the overlapping entries wraps
      to the total capacity. */
  lemma WrappedCapacityPartition(rs: seq<Reservation>, ym: YearMonth, unreserved: Int32)
    requires ValidMonth(ym)
    requires unreserved == Wrap(TotalCapacity(NotOverlapping(rs, ym)))
    ensures Wrap(unreserved + TotalCapacity(Overlapping(rs, ym))) == Wrap(TotalCapacity(rs))
  {
    CapacityPartition(rs, ym);
    WrapAdd(TotalCapacity(NotOverlapping(rs, ym)), TotalCapacity(Overlapping(rs, ym)));
  }

  lemma TotalCapacitySnoc(a: seq<Reservation>, r: Reservation)
    ensures TotalCapacity(a + [r]) == TotalCapacity(a) + r.capacity
  {
    assert (a + [r])[..|a|] == a;
  }

  lemma TotalRevenueSnoc(a: seq<Reservation>, r: Reservation, ym: YearMonth)
    requires ValidMonth(ym)
    ensures TotalRevenue(a + [r], ym) == TotalRevenue(a, ym) + RevenueForMonth(r, ym)
  {
    assert (a + [r])[..|a|] == a;
  }

  lemma TotalPriceSnoc(a: seq<Reservation>, r: Reservation)
    ensures TotalPrice(a + [r]) == TotalPrice(a) + r.price
  {
    assert (a + [r])[..|a|] == a;
  }

  /** Restricting the revenue sum to the overlapping reservations changes
      nothing: the others earn 0 in the month. */
  lemma {:induction false} RevenueOnlyFromOverlapping(rs: seq<Reservation>, ym: YearMonth)
    requires ValidMonth(ym)
    ensures TotalRevenue(Overlapping(rs, ym), ym) == TotalRevenue(rs, ym)
  {
    if rs != [] {
      var init, last := rs[..|rs| - 1], rs[|rs| - 1];
      RevenueOnlyFromOverlapping(init, ym);
      assert rs == init + [last];
      TotalRevenueSnoc(init, last, ym);
      if Overlaps(last, ym) {
        assert Overlapping(rs, ym) == Overlapping(init, ym) + [last];
        TotalRevenueSnoc(Overlapping(init, ym), last, ym);
      } else {
        NoOverlapNoRevenue(last, ym);
        assert Overlapping(rs, ym) == Overlapping(init, ym);
      }
    }
  }

  /** With non-negative prices, the month's revenue is at least 0 and at
      most the summed prices of the overlapping reservations. */
  lemma {:induction false} TotalRevenueBounds(rs: seq<Reservation>, ym: YearMonth)
    requires ValidMonth(ym)
    requires forall r <- rs :: 0.0 <= r.price
    ensures 0.0 <= TotalRevenue(Overlapping(rs, ym), ym) <= TotalPrice(Overlapping(rs, ym))
  {
    if rs != [] {
      var init, last := rs[..|rs| - 1], rs[|rs| - 1];
      TotalRevenueBounds(init, ym);
      if Overlaps(last, ym) {
        assert Overlapping(rs, ym) == Overlapping(init, ym) + [last];
        TotalRevenueSnoc(Overlapping(init, ym), last, ym);
        TotalPriceSnoc(Overlapping(init, ym), last);
        RevenueBounds(last, ym);
      } else {
        assert Overlapping(rs, ym) == Overlapping(init, ym);
      }
    }
  }

  /** One more entry of the list extends exactly one of the two groups. */
  lemma GroupsStep(rs: seq<Reservation>, i: int, ym: YearMonth)
    requires ValidMonth(ym) && 0 <= i < |rs|
    ensures Overlapping(rs[..i + 1], ym) ==
              if Overlaps(rs[i], ym) then Overlapping(rs[..i], ym) + [rs[i]] else Overlapping(rs[..i], ym)
    ensures NotOverlapping(rs[..i + 1], ym) ==
              if Overlaps(rs[i], ym) then NotOverlapping(rs[..i], ym) else NotOverlapping(rs[..i], ym) + [rs[i]]
  {
    assert rs[..i + 1][..i] == rs[..i];
  }

  /** How one more entry changes the revenue of the overlapping group. */
  lemma RevenueStep(rs: seq<Reservation>, i: int, ym: YearMonth)
    requires ValidMonth(ym) && 0 <= i < |rs|
    ensures TotalRevenue(Overlapping(rs[..i + 1], ym), ym) ==
              if Overlaps(rs[i], ym) then TotalRevenue(Overlapping(rs[..i], ym), ym) + RevenueForMonth(rs[i], ym)
              else TotalRevenue(Overlapping(rs[..i], ym), ym)
  {
    GroupsStep(rs, i, ym);
    if Overlaps(rs[i], ym) {
      TotalRevenueSnoc(Overlapping(rs[..i], ym), rs[i], ym);
    }
  }

  /** How one more entry changes the wrapped capacity of the other group. */
  lemma CapacityStep(rs: seq<Reservation>, i: int, ym: YearMonth)
    requires ValidMonth(ym) && 0 <= i < |rs|
    ensures Wrap(TotalCapacity(NotOverlapping(rs[..i + 1], ym))) ==
              if Overlaps(rs[i], ym) then Wrap(TotalCapacity(NotOverlapping(rs[..i], ym)))
              else Wrap(Wrap(TotalCapacity(NotOverlapping(rs[..i], ym))) + rs[i].capacity)
  {
    GroupsStep(rs, i, ym);
    if !Overlaps(rs[i], ym) {
      TotalCapacitySnoc(NotOverlapping(rs[..i], ym), rs[i]);
      WrapAdd(TotalCapacity(NotOverlapping(rs[..i], ym)), rs[i].capacity);
    }
  }

  /** `analyze` without its report line: the revenue summed over the
      reservations that overlap `ym`, and the `int` sum of the capacities of
      those that do not. The first loop records the overlapping entries by
      position, as the source's identity-based `HashSet` does; the second
      sums the capacity of every entry not recorded. */
  method Analyze(reservations: seq<Reservation>, ym: YearMonth) returns (revenue: real, unreservedCapacity: Int32)
    requires ValidMonth(ym)
    ensures revenue == TotalRevenue(Overlapping(reservations, ym), ym)
    ensures unreservedCapacity == Wrap(TotalCapacity(NotOverlapping(reservations, ym)))
    ensures reservations == [] ==> revenue == 0.0 && unreservedCapacity == 0
  {
    revenue := 0.0;
    var used: set<int> := {};
    for i := 0 to |reservations|
      invariant revenue == TotalRevenue(Overlapping(reservations[..i], ym), ym)
      invariant forall j :: j in used <==> 0 <= j < i && Overlaps(reservations[j], ym)
    {
      var r := reservations[i];
      RevenueStep(reservations, i, ym);
      if Overlaps(r, ym) {
        revenue := revenue + RevenueForMonth(r, ym);
        used := used + {i};
      }
    }
    assert reservations[..|reservations|] == reservations;

    unreservedCapacity := 0;
    for i := 0 to |reservations|
      invariant unreservedCapacity == Wrap(TotalCapacity(NotOverlapping(reservations[..i], ym)))
    {
      var r := reservations[i];
      CapacityStep(reservations, i, ym);
      if i !in used {
        unreservedCapacity := Wrap(unreservedCapacity + r.capacity);
      }
    }
    WrapInRange(0);
  }
}
