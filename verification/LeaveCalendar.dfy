/**
 * The booked days of the ledger as dates of the calendar: requests are created
 * from date texts, so every day number a request covers is that of one date.
 */
module LeaveCalendar {
  import opened Prelude
  import opened Dates
  import opened Ledger
  import opened LedgerInvariants
  import opened LedgerRuns

  const FIRST := Date(100, 1, 1)
  const LAST := Date(9999, 12, 31)

  predicate InCalendar(first: int, last: int) { UtcDay(FIRST) <= first && last <= UtcDay(LAST) }

  ghost predicate AllInCalendar(rs: seq<Request>) {
    forall i | 0 <= i < |rs| :: InCalendar(rs[i].first, rs[i].last)
  }

  /** The date a day number stands for. */
  function DateAt(n: int): Date
    requires InCalendar(n, n)
  {
    Advance(FIRST, n - UtcDay(FIRST))
  }

  lemma DateAtIsInverse(n: int)
    requires InCalendar(n, n)
    ensures IsDate(DateAt(n)) && DateAt(n).year >= 100 && UtcDay(DateAt(n)) == n
  {
    hide UtcDay;
    hide Advance;
    AdvanceCountsDays(FIRST, n - UtcDay(FIRST));
  }

  lemma DatesLieInCalendar(d: Date)
    requires IsDate(d) && d.year >= 100
    ensures InCalendar(UtcDay(d), UtcDay(d)) && DateAt(UtcDay(d)) == d
  {
    hide UtcDay;
    hide Advance;
    DayNumbersFollowTheCalendar(FIRST, d);
    DayNumbersFollowTheCalendar(d, LAST);
    DateAtIsInverse(UtcDay(d));
    DayNumbersFollowTheCalendar(DateAt(UtcDay(d)), d);
  }

  lemma CoveredInCalendar(rs: seq<Request>, employee: string, location: string, n: int)
    requires AllInCalendar(rs) && n in CoveredDays(rs, employee, location)
    ensures InCalendar(n, n)
  {
    hide CoveredDays;
    hide UtcDay;
    CoveredMeansBooked(rs, employee, location, n);
    var i :| 0 <= i < |rs| && Books(rs[i], employee, location) && n in LeaveDays(rs[i]);
    assert InCalendar(rs[i].first, rs[i].last);
  }

  /** The dates on which an active request keeps the employee away from the location. */
  ghost function LeaveDates(rs: seq<Request>, employee: string, location: string): set<Date>
    requires AllInCalendar(rs)
  {
    set n | n in CoveredDays(rs, employee, location) :: DateFor(rs, employee, location, n)
  }

  ghost function DateFor(rs: seq<Request>, employee: string, location: string, n: int): Date
    requires AllInCalendar(rs) && n in CoveredDays(rs, employee, location)
  {
    CoveredInCalendar(rs, employee, location, n);
    DateAt(n)
  }

  lemma DateForIsInverse(rs: seq<Request>, employee: string, location: string, n: int)
    requires AllInCalendar(rs) && n in CoveredDays(rs, employee, location)
    ensures InCalendar(n, n) && DateFor(rs, employee, location, n) == DateAt(n)
    ensures UtcDay(DateFor(rs, employee, location, n)) == n
    ensures IsDate(DateFor(rs, employee, location, n)) && DateFor(rs, employee, location, n).year >= 100
  {
    CoveredInCalendar(rs, employee, location, n);
    hide UtcDay;
    DateAtIsInverse(n);
  }

  /** A date is a leave date exactly if some active request of the employee and location spans it. */
  lemma LeaveDatesAreBooked(rs: seq<Request>, employee: string, location: string, d: Date)
    requires AllInCalendar(rs)
    ensures d in LeaveDates(rs, employee, location)
       <==> && IsDate(d) && d.year >= 100
            && exists i | 0 <= i < |rs| :: Books(rs[i], employee, location) && rs[i].first <= UtcDay(d) <= rs[i].last
  {
    hide UtcDay;
    hide CoveredDays;
    hide AllInCalendar;
    hide DateFor;
    var covered := CoveredDays(rs, employee, location);
    CoveredMeansBooked(rs, employee, location, UtcDay(d));
    if d in LeaveDates(rs, employee, location) {
      var n :| n in covered && DateFor(rs, employee, location, n) == d;
      DateForIsInverse(rs, employee, location, n);
      var i :| 0 <= i < |rs| && Books(rs[i], employee, location) && UtcDay(d) in LeaveDays(rs[i]);
      assert Away(rs[i], UtcDay(d));
    }
    if i :| 0 <= i < |rs| && Books(rs[i], employee, location) && rs[i].first <= UtcDay(d) <= rs[i].last {
      assert Away(rs[i], UtcDay(d));
      if IsDate(d) && d.year >= 100 {
        DatesLieInCalendar(d);
        DateForIsInverse(rs, employee, location, UtcDay(d));
      }
    }
  }

  /** An image under an injection is as large as the set itself. */
  lemma {:induction false} ImageSize<A, B>(some: set<A>, f: A --> B, image: set<B>)
    requires forall x | x in some :: f.requires(x)
    requires forall x, y | x in some && y in some && f(x) == f(y) :: x == y
    requires image == set x | x in some :: f(x)
    ensures |image| == |some|
    decreases |some|
  {
    if some == {} {
      assert image == {};
    } else {
      var m :| m in some;
      var rest := some - {m};
      ImageSize(rest, f, set x | x in rest :: f(x));
      assert image == (set x | x in rest :: f(x)) + {f(m)};
    }
  }

  /** There are as many leave dates as covered days. */
  lemma LeaveDatesAreAsMany(rs: seq<Request>, employee: string, location: string)
    requires AllInCalendar(rs)
    ensures |LeaveDates(rs, employee, location)| == |CoveredDays(rs, employee, location)|
  {
    hide UtcDay;
    hide CoveredDays;
    hide DateFor;
    hide AllInCalendar;
    var covered := CoveredDays(rs, employee, location);
    forall n | n in covered ensures UtcDay(DateFor(rs, employee, location, n)) == n {
      DateForIsInverse(rs, employee, location, n);
    }
    var f := n requires AllInCalendar(rs) && n in CoveredDays(rs, employee, location)
      => DateFor(rs, employee, location, n);
    assert LeaveDates(rs, employee, location) == set n | n in covered :: f(n);
    ImageSize(covered, f, LeaveDates(rs, employee, location));
  }

  // ---------- over runs ----------

  /** Every creation asks for days of the calendar, as the date checks see to. */
  predicate AsksInCalendar(evs: seq<Event>) {
    forall i | 0 <= i < |evs| && evs[i].Create? :: InCalendar(evs[i].ask.first, evs[i].ask.last)
  }

  lemma StepStaysInCalendar(db: Db, ev: Event)
    requires AllInCalendar(db.requests) && (ev.Create? ==> InCalendar(ev.ask.first, ev.ask.last))
    ensures AllInCalendar(Apply(db, ev).requests)
  {
    hide UtcDay;
  }

  lemma {:induction false} RunStaysInCalendar(db: Db, evs: seq<Event>)
    requires AllInCalendar(db.requests) && AsksInCalendar(evs)
    ensures AllInCalendar(Run(db, evs).requests)
    decreases |evs|
  {
    hide InCalendar;
    hide AllInCalendar;
    hide Apply;
    if evs != [] {
      StepStaysInCalendar(db, evs[0]);
      RunStaysInCalendar(Apply(db, evs[0]), evs[1..]);
    }
  }

  /**
   * After any run the reserved amounts of an employee at a location, over all leave
   * types, count the dates on which an active request keeps them away.
   */
  lemma ReservedAmountsCountLeaveDates(evs: seq<Event>, employee: string, location: string)
    requires SoundRun(EMPTY, evs) && AsksInCalendar(evs)
    ensures AllInCalendar(Run(EMPTY, evs).requests)
    ensures var db := Run(EMPTY, evs);
      Reserved(db.balances, employee, location, LEAVE_TYPES) == |LeaveDates(db.requests, employee, location)| as real
  {
    hide InCalendar;
    var db := Run(EMPTY, evs);
    RunStaysInCalendar(EMPTY, evs);
    ReachableStatesBalance(evs);
    ReservedDaysAreCalendarDays(db, employee, location);
    LeaveDatesAreAsMany(db.requests, employee, location);
  }
}
