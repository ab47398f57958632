/**
 * The upcoming-birthdays query (main.py, AddressBook.get_upcoming_birthdays)
 * as a function of the records it visits, in book order, and of `today`.
 * Each birthday is moved to today's year and kept when it falls in the
 * inclusive window [today, today + 7 days]. As in the source, there is no
 * roll-over into next year, and a 29 February birthday in a non-leap year
 * makes the whole query fail.
 */
module Birthdays {
  import opened Results
  import opened Calendar

  const DAY_OUT_OF_RANGE := "day is out of range for month"
  const DATE_OUT_OF_RANGE := "date value out of range"
  /** The window's length: `timedelta(days=7)`. */
  const WINDOW_DAYS := 7

  /** One record as the query reads it: `record.name.value` and `record.birthday`. */
  datatype Entry = Entry(name: string, birthday: Option<Date>)

  /** One item of the answer: the name and the birthday moved to today's year. */
  datatype Upcoming = Upcoming(name: string, date: Date)

  /** `b.replace(year=y)`: the same month and day in year y, if that date exists. */
  function ReplaceYear(b: Date, y: int): (r: Result<Date>)
    ensures r.Ok? ==> r.value == Date(y, b.month, b.day) && IsValid(r.value)
    ensures r.Err? ==> r.error == ValueError(DAY_OUT_OF_RANGE)
    ensures IsValid(b) && MIN_YEAR <= y <= MAX_YEAR ==> (r.Err? <==> b.month == 2 && b.day == 29 && !IsLeapYear(y))
  {
    var c := Date(y, b.month, b.day);
    if IsValid(c) then Ok(c) else Err(ValueError(DAY_OUT_OF_RANGE))
  }

  /**
   * One turn of the loop, evaluated as Python does: replace the year, test
   * `today <= next_birthday`, and only then compute `today + 7 days`
   * (which overflows in the last week of year 9999) for the second test.
   */
  function Visit(e: Entry, today: Date): Result<seq<Upcoming>>
    requires IsValid(today)
  {
    match e.birthday
    case None => Ok([])
    case Some(b) =>
      match ReplaceYear(b, today.year)
      case Err(err) => Err(err)
      case Ok(next) =>
        if !DateLessEq(today, next) then Ok([])
        else
          match AddDays(today, WINDOW_DAYS)
          case None => Err(OverflowError(DATE_OUT_OF_RANGE))
          case Some(limit) => if DateLessEq(next, limit) then Ok([Upcoming(e.name, next)]) else Ok([])
  }

  /** The whole loop: entries in order, the first failure aborting the query. */
  function UpcomingOf(es: seq<Entry>, today: Date): Result<seq<Upcoming>>
    requires IsValid(today)
  {
    if es == [] then Ok([])
    else
      match UpcomingOf(es[..|es| - 1], today)
      case Err(err) => Err(err)
      case Ok(found) =>
        match Visit(es[|es| - 1], today)
        case Err(err) => Err(err)
        case Ok(item) => Ok(found + item)
  }

  /** The loop's next turn, when the entry is kept or skipped: the answer so far grows by its visit. */
  lemma VisitAppends(done: seq<Entry>, e: Entry, today: Date, found: seq<Upcoming>)
    requires IsValid(today) && UpcomingOf(done, today) == Ok(found) && Visit(e, today).Ok?
    ensures UpcomingOf(done + [e], today) == Ok(found + Visit(e, today).value)
  {
    assert (done + [e])[..|done|] == done;
  }

  /** The loop's next turn, when the entry raises: that error is the answer. */
  lemma VisitFails(es: seq<Entry>, i: int, today: Date)
    requires IsValid(today) && 0 <= i < |es|
    requires UpcomingOf(es[..i], today).Ok? && Visit(es[i], today).Err?
    ensures UpcomingOf(es, today) == Err(Visit(es[i], today).error)
  {
    assert es[..i + 1][..i] == es[..i];
    PrefixFailure(es, i + 1, today);
  }

  // ------------------------------------------------------------ reference

  /** Every stored birthday is a valid date, as Birthday parsing guarantees. */
  predicate EntriesValid(es: seq<Entry>) {
    forall i :: 0 <= i < |es| && es[i].birthday.Some? ==> IsValid(es[i].birthday.value)
  }

  /** The birthday's month and day in today's year. */
  function Candidate(e: Entry, today: Date): Date
    requires e.birthday.Some?
  {
    Date(today.year, e.birthday.value.month, e.birthday.value.day)
  }

  predicate IsLeapDayIn(e: Entry, year: int)
    requires e.birthday.Some?
  {
    e.birthday.value.month == 2 && e.birthday.value.day == 29 && !IsLeapYear(year)
  }

  /** The entry belongs in the answer: its candidate date lies 0 to 7 days after today. */
  predicate Qualifies(e: Entry, today: Date)
    requires IsValid(today)
  {
    e.birthday.Some? && IsValid(Candidate(e, today))
    && DayNumber(today) <= DayNumber(Candidate(e, today)) <= DayNumber(today) + WINDOW_DAYS
  }

  /**
   * The entry makes the query raise: a 29 February birthday in a non-leap
   * year, or a candidate on or after today when today + 7 days is past the
   * last representable date.
   */
  predicate Aborts(e: Entry, today: Date)
    requires IsValid(today)
  {
    e.birthday.Some? &&
    (IsLeapDayIn(e, today.year)
     || (IsValid(Candidate(e, today)) && DayNumber(today) <= DayNumber(Candidate(e, today))
         && DayNumber(today) + WINDOW_DAYS > MAX_ORDINAL))
  }

  /** One visit agrees with the day-number description. */
  lemma VisitSpec(e: Entry, today: Date)
    requires IsValid(today)
    requires e.birthday.Some? ==> IsValid(e.birthday.value)
    ensures Visit(e, today).Err? <==> Aborts(e, today)
    ensures Visit(e, today).Ok? ==>
      Visit(e, today).value == if Qualifies(e, today) then [Upcoming(e.name, Candidate(e, today))] else []
  {
    if e.birthday.Some? && !IsLeapDayIn(e, today.year) {
      var next := Candidate(e, today);
      assert ReplaceYear(e.birthday.value, today.year) == Ok(next);
      DayNumberOrder(today, next);
      var limit := AddDays(today, WINDOW_DAYS);
      if limit.Some? {
        DayNumberOrder(next, limit.value);
      }
    }
  }

  /** An earlier failure is the failure of the whole query. */
  lemma {:induction false} PrefixFailure(es: seq<Entry>, n: nat, today: Date)
    requires IsValid(today) && n <= |es| && UpcomingOf(es[..n], today).Err?
    ensures UpcomingOf(es, today) == UpcomingOf(es[..n], today)
    decreases |es| - n
  {
    if n < |es| {
      assert es[..|es| - 1][..n] == es[..n];
      PrefixFailure(es[..|es| - 1], n, today);
    } else {
      assert es[..n] == es;
    }
  }

  /** The query fails exactly when some entry aborts it. */
  lemma {:induction false} UpcomingFailsIff(es: seq<Entry>, today: Date)
    requires IsValid(today) && EntriesValid(es)
    ensures UpcomingOf(es, today).Err? <==> exists j :: 0 <= j < |es| && Aborts(es[j], today)
  {
    if es != [] {
      var init, last := es[..|es| - 1], es[|es| - 1];
      assert EntriesValid(init) by {
        forall i | 0 <= i < |init| && init[i].birthday.Some? ensures IsValid(init[i].birthday.value) {
          assert init[i] == es[i];
        }
      }
      UpcomingFailsIff(init, today);
      VisitSpec(last, today);
      if exists j :: 0 <= j < |init| && Aborts(init[j], today) {
        var j :| 0 <= j < |init| && Aborts(init[j], today);
        assert es[j] == init[j];
      }
      if exists j :: 0 <= j < |es| && Aborts(es[j], today) {
        var j :| 0 <= j < |es| && Aborts(es[j], today);
        if j < |init| {
          assert init[j] == es[j];
        }
      }
    }
  }

  /**
   * `idx` lists, in increasing order, the positions of exactly the entries
   * that qualify, and `found` holds their names and candidate dates in that order.
   */
  ghost predicate SelectedAt(found: seq<Upcoming>, es: seq<Entry>, today: Date, idx: seq<int>)
    requires IsValid(today)
  {
    && |idx| == |found|
    && (forall k :: 0 <= k < |idx| ==>
          (0 <= idx[k] < |es| && Qualifies(es[idx[k]], today)
           && found[k] == Upcoming(es[idx[k]].name, Candidate(es[idx[k]], today))))
    && (forall k1, k2 :: 0 <= k1 < k2 < |idx| ==> idx[k1] < idx[k2])
    && (forall j :: 0 <= j < |es| && Qualifies(es[j], today) ==> j in idx)
  }

  /**
   * When the query succeeds, its answer is exactly the qualifying entries,
   * each once, in book order.
   */
  lemma {:induction false} UpcomingSelects(es: seq<Entry>, today: Date)
    requires IsValid(today) && EntriesValid(es) && UpcomingOf(es, today).Ok?
    ensures exists idx :: SelectedAt(UpcomingOf(es, today).value, es, today, idx)
  {
    if es == [] {
      assert SelectedAt([], es, today, []);
    } else {
      var init, last := es[..|es| - 1], es[|es| - 1];
      assert EntriesValid(init) by {
        forall i | 0 <= i < |init| && init[i].birthday.Some? ensures IsValid(init[i].birthday.value) {
          assert init[i] == es[i];
        }
      }
      UpcomingSelects(init, today);
      var before := UpcomingOf(init, today).value;
      var idx :| SelectedAt(before, init, today, idx);
      VisitSpec(last, today);
      assert es == init + [last];
      SelectedExtend(before, init, last, today, idx);
    }
  }

  /** Appending one entry extends a selection by that entry's visit. */
  lemma SelectedExtend(found: seq<Upcoming>, init: seq<Entry>, last: Entry, today: Date, idx: seq<int>)
    requires IsValid(today) && SelectedAt(found, init, today, idx)
    ensures var item := if Qualifies(last, today) then [Upcoming(last.name, Candidate(last, today))] else [];
      exists idx' :: SelectedAt(found + item, init + [last], today, idx')
  {
    var es, n := init + [last], |init|;
    assert forall j :: 0 <= j < n ==> es[j] == init[j];
    if Qualifies(last, today) {
      var item := [Upcoming(last.name, Candidate(last, today))];
      var idx' := idx + [n];
      assert SelectedAt(found + item, es, today, idx');
    } else {
      assert SelectedAt(found + [], es, today, idx);
    }
  }

  /**
   * No roll-over: every date in a successful answer is in today's year and
   * 0 to 7 days after today.
   */
  lemma UpcomingInWindow(es: seq<Entry>, today: Date)
    requires IsValid(today) && EntriesValid(es) && UpcomingOf(es, today).Ok?
    ensures forall u :: u in UpcomingOf(es, today).value ==>
      u.date.year == today.year && IsValid(u.date)
      && DayNumber(today) <= DayNumber(u.date) <= DayNumber(today) + WINDOW_DAYS
  {
    var found := UpcomingOf(es, today).value;
    UpcomingSelects(es, today);
    var idx :| SelectedAt(found, es, today, idx);
    forall u | u in found
      ensures u.date.year == today.year && IsValid(u.date)
      ensures DayNumber(today) <= DayNumber(u.date) <= DayNumber(today) + WINDOW_DAYS
    {
      var k :| 0 <= k < |found| && found[k] == u;
      assert Qualifies(es[idx[k]], today);
    }
  }

  /** A 29 February birthday aborts the whole query in a non-leap year, whatever else is in the book. */
  lemma LeapDayBirthdayAborts(es: seq<Entry>, today: Date, j: int)
    requires IsValid(today) && EntriesValid(es) && 0 <= j < |es|
    requires es[j].birthday.Some? && es[j].birthday.value.month == 2 && es[j].birthday.value.day == 29
    requires !IsLeapYear(today.year)
    ensures UpcomingOf(es, today).Err?
  {
    assert Aborts(es[j], today);
    UpcomingFailsIff(es, today);
  }

  /** A book of one record answers with that record's visit. */
  lemma SingleEntry(e: Entry, today: Date)
    requires IsValid(today)
    ensures UpcomingOf([e], today) == Visit(e, today)
  {
    assert [e][..0] == [];
    match Visit(e, today)
    case Err(_) =>
    case Ok(item) => assert [] + item == item;
  }

  /** A birthday five days ahead is reported, dated in today's year. */
  lemma DecemberBirthdayIncluded(y: int)
    requires MIN_YEAR <= y <= MAX_YEAR
    ensures UpcomingOf([Entry("Mia", Some(Date(1990, 12, 25)))], Date(y, 12, 20))
         == Ok([Upcoming("Mia", Date(y, 12, 25))])
  {
    var today, e := Date(y, 12, 20), Entry("Mia", Some(Date(1990, 12, 25)));
    var c := Date(y, 12, 25);
    assert Candidate(e, today) == c && IsValid(c);
    assert DayNumber(c) == DayNumber(today) + 5;
    MaxOrdinalBound(Date(y, 12, 27));
    assert DayNumber(Date(y, 12, 27)) == DayNumber(today) + 7;
    assert Qualifies(e, today) && !Aborts(e, today);
    VisitSpec(e, today);
    assert Visit(e, today) == Ok([Upcoming("Mia", c)]);
    SingleEntry(e, today);
  }

  /**
   * No roll-over: on 28 December a 1 January birthday is not reported,
   * although next year's 1 January is only four days away.
   */
  lemma NewYearBirthdayNotRolledOver(y: int)
    requires MIN_YEAR <= y < MAX_YEAR
    ensures DayNumber(Date(y + 1, 1, 1)) <= DayNumber(Date(y, 12, 28)) + WINDOW_DAYS
    ensures UpcomingOf([Entry("Mia", Some(Date(1990, 1, 1)))], Date(y, 12, 28)) == Ok([])
  {
    var today, e := Date(y, 12, 28), Entry("Mia", Some(Date(1990, 1, 1)));
    var c := Date(y, 1, 1);
    LastMonth(y);
    YearStep(y);
    assert DayNumber(Date(y + 1, 1, 1)) == DayNumber(today) + 4;
    assert Candidate(e, today) == c && IsValid(c);
    DayNumberOrder(c, today);
    assert DateLess(c, today);
    assert !Qualifies(e, today) && !Aborts(e, today);
    VisitSpec(e, today);
    assert Visit(e, today) == Ok([]);
    SingleEntry(e, today);
  }
}
