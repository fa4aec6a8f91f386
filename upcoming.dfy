/** The scan behind `AddressBook.get_upcoming_birthdays` (task.py:83-110),
    stated on the sequence of contacts in the book's iteration order: project
    each birthday onto this year or the next, keep those inside the inclusive
    window, move weekend days to Monday, and sort stably by the resulting date. */
module Upcoming {
  import opened Wrappers
  import opened Text
  import opened Errors
  import opened Calendar
  import opened Records

  /** One item of the result: `{"name": ..., "congratulation_date": ...}`. */
  datatype Entry = Entry(name: string, congratulationDate: CalendarDate)

  /** Largest magnitude `timedelta(days=...)` accepts. */
  const MaxDeltaDays := 999999999

  /** `today + timedelta(days=days)`, kept as the ordinal it stands for. Both
      the `timedelta` constructor and the addition raise OverflowError when
      out of range. */
  function EndOrdinal(today: CalendarDate, days: int): (r: Result<int, Exception>)
    ensures r.Success? <==> -MaxDeltaDays <= days <= MaxDeltaDays && 1 <= Ordinal(today) + days <= MaxOrdinal
    ensures r.Success? ==> r.value == Ordinal(today) + days
    ensures r.Failure? ==> r.error.OverflowError?
  {
    if days < -MaxDeltaDays || days > MaxDeltaDays then
      Failure(OverflowError("days=" + IntToString(days) + "; must have magnitude <= 999999999"))
    else if Ordinal(today) + days < 1 || Ordinal(today) + days > MaxOrdinal then
      Failure(OverflowError("date value out of range"))
    else
      Success(Ordinal(today) + days)
  }

  /** The year the birthday is projected into: today's year, or the next
      one when the day has already passed this year. */
  function TargetYear(birthday: CalendarDate, today: CalendarDate): int {
    if Before(Date(today.year, birthday.month, birthday.day), today) then today.year + 1 else today.year
  }

  /** Lines 92-96: the birthday in today's year, or in the next year if that
      day has already passed. Either `replace` may raise: on 29 February when
      today's year is common (line 93), or when the day has passed and the
      next year is common (line 96) or beyond 9999. */
  function NextOccurrence(birthday: CalendarDate, today: CalendarDate): (r: Result<CalendarDate, Exception>)
    ensures var y := TargetYear(birthday, today);
            r.Success? <==>
              && !(birthday.month == 2 && birthday.day == 29 && (!IsLeapYear(today.year) || !IsLeapYear(y)))
              && y <= MaxYear
    ensures r.Success? ==> r.value.year == TargetYear(birthday, today)
    ensures r.Success? ==> AtOrBefore(today, r.value)
    ensures r.Success? ==> r.value.month == birthday.month && r.value.day == birthday.day
    ensures r.Success? ==>
              (r.value.year == today.year
               || (r.value.year == today.year + 1 && Before(Date(today.year, birthday.month, birthday.day), today)))
    ensures r.Failure? ==> r.error.ValueError?
  {
    var thisYear :- ReplaceYear(birthday, today.year);
    if Before(thisYear, today) then ReplaceYear(birthday, today.year + 1)
    else Success(thisYear)
  }

  /** A Feb 29 birthday aborts the projection whenever today's year is not a
      leap year, even if next year is one. */
  lemma LeapDayRaises(birthday: CalendarDate, today: CalendarDate)
    requires birthday.month == 2 && birthday.day == 29 && !IsLeapYear(today.year)
    ensures NextOccurrence(birthday, today) == Failure(ValueError("day is out of range for month"))
  {
  }

  /** Saturday and Sunday are never the last representable day, nor the day
      before it, so the shift always lands on a real date. */
  lemma WeekendHasRoom(n: CalendarDate)
    requires Weekday(n) == Saturday || Weekday(n) == Sunday
    ensures n != MaxDate
    ensures Weekday(n) == Saturday ==> NextDay(n) != MaxDate
  {
    MaxDateIsFriday();
    if Weekday(n) == Saturday {
      NextDayOrdinal(n);
    }
  }

  /** Lines 99-103: Saturday moves on two days, Sunday one, other days stay. */
  function Congratulation(n: CalendarDate): (r: CalendarDate)
    ensures Weekday(r) != Saturday && Weekday(r) != Sunday
    ensures Ordinal(r) == Ordinal(n) + (if Weekday(n) == Saturday then 2 else if Weekday(n) == Sunday then 1 else 0)
  {
    if Weekday(n) == Saturday then DayAfterWeekendDay(DayAfterWeekendDay(n))
    else if Weekday(n) == Sunday then DayAfterWeekendDay(n)
    else n
  }

  /** The day after a weekend day: Sunday after Saturday, Monday after Sunday. */
  function DayAfterWeekendDay(n: CalendarDate): (r: CalendarDate)
    requires Weekday(n) == Saturday || Weekday(n) == Sunday
    ensures Ordinal(r) == Ordinal(n) + 1 && Weekday(r) == (Weekday(n) + 1) % 7
  {
    WeekendHasRoom(n);
    NextDayOrdinal(n);
    NextDay(n)
  }

  /** Lines 89-108 for one record: no birthday means no entry; a birthday
      whose projection lies in `today..end` gives one entry. */
  function Consider(c: Contact, today: CalendarDate, endOrdinal: int): (r: Result<Option<Entry>, Exception>)
    ensures r.Success? && r.value.Some? ==> c.birthday.Some? && r.value.value.name == c.name
    ensures r.Success? && r.value.Some? ==>
              Weekday(r.value.value.congratulationDate) != Saturday && Weekday(r.value.value.congratulationDate) != Sunday
    ensures r.Failure? ==> c.birthday.Some? && r.error.ValueError?
  {
    match c.birthday
    case None => Success(None)
    case Some(b) =>
      var n :- NextOccurrence(b, today);
      if AtOrBefore(today, n) && Ordinal(n) <= endOrdinal then Success(Some(Entry(c.name, Congratulation(n))))
      else Success(None)
  }

  /** The loop of lines 88-108 over records in iteration order, the first
      exception aborting it. */
  function Collect(cs: seq<Contact>, today: CalendarDate, endOrdinal: int): (r: Result<seq<Entry>, Exception>)
    ensures r.Success? ==> |r.value| <= |cs|
    ensures r.Failure? ==> r.error.ValueError?
  {
    if cs == [] then Success([])
    else
      match Collect(cs[..|cs| - 1], today, endOrdinal)
      case Failure(e) => Failure(e)
      case Success(earlier) =>
        match Consider(cs[|cs| - 1], today, endOrdinal)
        case Failure(e) => Failure(e)
        case Success(item) => Success(earlier + (if item.Some? then [item.value] else []))
  }

  /** One more record extends the collected prefix by its own entry, if any. */
  lemma CollectStep(cs: seq<Contact>, i: nat, today: CalendarDate, endOrdinal: int,
                    prefix: seq<Entry>, item: Option<Entry>)
    requires i < |cs| && Collect(cs[..i], today, endOrdinal) == Success(prefix)
    requires Consider(cs[i], today, endOrdinal) == Success(item)
    ensures Collect(cs[..i + 1], today, endOrdinal) == Success(prefix + (if item.Some? then [item.value] else []))
  {
    assert cs[..i + 1][..i] == cs[..i];
  }

  /** A record whose projection raises aborts the whole scan with its exception. */
  lemma {:induction false} CollectAborts(cs: seq<Contact>, i: nat, today: CalendarDate, endOrdinal: int, e: Exception)
    requires i < |cs| && Collect(cs[..i], today, endOrdinal).Success?
    requires Consider(cs[i], today, endOrdinal) == Failure(e)
    ensures Collect(cs, today, endOrdinal) == Failure(e)
  {
    assert cs[..i + 1][..i] == cs[..i];
    CollectFailureSticks(cs, i + 1, today, endOrdinal);
  }

  lemma {:induction false} CollectFailureSticks(cs: seq<Contact>, i: nat, today: CalendarDate, endOrdinal: int)
    requires i <= |cs| && Collect(cs[..i], today, endOrdinal).Failure?
    ensures Collect(cs, today, endOrdinal) == Collect(cs[..i], today, endOrdinal)
    decreases |cs| - i
  {
    if i == |cs| {
      assert cs[..i] == cs;
    } else {
      var n := |cs| - 1;
      assert cs[..n][..i] == cs[..i];
      CollectFailureSticks(cs[..n], i, today, endOrdinal);
    }
  }

  // ------------------------------------------------------- the stable sort

  /** Entries ordered by their dates, compared as Python compares dates. */
  predicate SortedByDate(es: seq<Entry>) {
    forall i, j :: 0 <= i < j < |es| ==> AtOrBefore(es[i].congratulationDate, es[j].congratulationDate)
  }

  /** `e` placed after every entry whose date is not later than its own. */
  function Insert(sorted: seq<Entry>, e: Entry): seq<Entry> {
    if sorted == [] then [e]
    else
      var n := |sorted| - 1;
      if !Before(e.congratulationDate, sorted[n].congratulationDate) then sorted + [e]
      else Insert(sorted[..n], e) + [sorted[n]]
  }

  /** Inserting adds exactly `e` to the entries. */
  lemma {:induction false} InsertPermutes(sorted: seq<Entry>, e: Entry)
    ensures multiset(Insert(sorted, e)) == multiset(sorted) + multiset{e}
  {
    if sorted != [] {
      var n := |sorted| - 1;
      assert sorted == sorted[..n] + [sorted[n]];
      if Before(e.congratulationDate, sorted[n].congratulationDate) {
        InsertPermutes(sorted[..n], e);
      }
    }
  }

  /** Every entry of the result is an old entry or the new one. */
  lemma InsertElements(sorted: seq<Entry>, e: Entry, x: Entry)
    requires x in Insert(sorted, e)
    ensures x in sorted || x == e
  {
    InsertPermutes(sorted, e);
    assert x in multiset(Insert(sorted, e));
  }

  lemma {:induction false} InsertSorted(sorted: seq<Entry>, e: Entry)
    requires SortedByDate(sorted)
    ensures SortedByDate(Insert(sorted, e))
  {
    if sorted != [] {
      var n := |sorted| - 1;
      if Before(e.congratulationDate, sorted[n].congratulationDate) {
        var front := Insert(sorted[..n], e);
        assert SortedByDate(sorted[..n]);
        InsertSorted(sorted[..n], e);
        forall i | 0 <= i < |front|
          ensures AtOrBefore(front[i].congratulationDate, sorted[n].congratulationDate)
        {
          InsertElements(sorted[..n], e, front[i]);
        }
      }
    }
  }

  /** Inserting an entry whose name is new keeps the names distinct. */
  lemma {:induction false} InsertDistinct(sorted: seq<Entry>, e: Entry)
    requires DistinctEntryNames(sorted)
    requires forall x :: x in sorted ==> x.name != e.name
    ensures DistinctEntryNames(Insert(sorted, e))
  {
    if sorted != [] {
      var n := |sorted| - 1;
      if Before(e.congratulationDate, sorted[n].congratulationDate) {
        var front := Insert(sorted[..n], e);
        assert DistinctEntryNames(sorted[..n]);
        InsertDistinct(sorted[..n], e);
        forall i | 0 <= i < |front|
          ensures front[i].name != sorted[n].name
        {
          InsertElements(sorted[..n], e, front[i]);
        }
      }
    }
  }

  /** `list.sort(key=...)`: a stable sort by congratulation date. */
  function SortByDate(es: seq<Entry>): seq<Entry> {
    if es == [] then []
    else
      var n := |es| - 1;
      Insert(SortByDate(es[..n]), es[n])
  }

  /** The sort keeps every entry, as often as it occurs. */
  lemma {:induction false} SortPermutes(es: seq<Entry>)
    ensures multiset(SortByDate(es)) == multiset(es)
  {
    if es != [] {
      var n := |es| - 1;
      assert es == es[..n] + [es[n]];
      SortPermutes(es[..n]);
      InsertPermutes(SortByDate(es[..n]), es[n]);
    }
  }

  lemma {:induction false} SortIsSorted(es: seq<Entry>)
    ensures SortedByDate(SortByDate(es))
  {
    if es != [] {
      var n := |es| - 1;
      SortIsSorted(es[..n]);
      InsertSorted(SortByDate(es[..n]), es[n]);
    }
  }

  lemma {:induction false} SortKeepsDistinct(es: seq<Entry>)
    requires DistinctEntryNames(es)
    ensures DistinctEntryNames(SortByDate(es))
  {
    if es != [] {
      var n := |es| - 1;
      assert DistinctEntryNames(es[..n]);
      SortKeepsDistinct(es[..n]);
      forall x | x in SortByDate(es[..n])
        ensures x.name != es[n].name
      {
        SortPermutes(es[..n]);
        assert x in multiset(SortByDate(es[..n]));
        var i :| 0 <= i < n && es[..n][i] == x;
      }
      InsertDistinct(SortByDate(es[..n]), es[n]);
    }
  }

  /** The entries congratulated on day `k`, in their order. */
  function OnDay(es: seq<Entry>, k: Date): seq<Entry> {
    if es == [] then []
    else OnDay(es[..|es| - 1], k) + (if es[|es| - 1].congratulationDate == k then [es[|es| - 1]] else [])
  }

  lemma {:induction false} OnDayConcat(a: seq<Entry>, b: seq<Entry>, k: Date)
    ensures OnDay(a + b, k) == OnDay(a, k) + OnDay(b, k)
    decreases |b|
  {
    if b == [] {
      assert a + b == a;
    } else {
      var n := |b| - 1;
      assert (a + b)[..|a + b| - 1] == a + b[..n];
      OnDayConcat(a, b[..n], k);
    }
  }

  lemma {:induction false} InsertOnDay(sorted: seq<Entry>, e: Entry, k: Date)
    ensures OnDay(Insert(sorted, e), k) == OnDay(sorted, k) + (if e.congratulationDate == k then [e] else [])
    decreases |sorted|, 1
  {
    if sorted != [] {
      var n := |sorted| - 1;
      assert sorted == sorted[..n] + [sorted[n]];
      if !Before(e.congratulationDate, sorted[n].congratulationDate) {
        OnDayConcat(sorted, [e], k);
      } else {
        InsertBeforeLastOnDay(sorted, e, k);
      }
    }
  }

  /** The step of `InsertOnDay` where `e` goes in before the last entry. */
  lemma {:induction false} InsertBeforeLastOnDay(sorted: seq<Entry>, e: Entry, k: Date)
    requires sorted != []
    requires Before(e.congratulationDate, sorted[|sorted| - 1].congratulationDate)
    ensures OnDay(Insert(sorted, e), k) == OnDay(sorted, k) + (if e.congratulationDate == k then [e] else [])
    decreases |sorted|, 0
  {
    var n := |sorted| - 1;
    var last, front := sorted[n], sorted[..n];
    InsertBeforeLast(sorted, e);
    InsertOnDay(front, e, k);
    OnDaySnoc(Insert(front, e), last, k);
    OnDaySnoc(front, last, k);
    assert front + [last] == sorted;
    if e.congratulationDate == k {
      assert last.congratulationDate != k;
    }
  }

  /** An entry dated before the last one goes in ahead of it. */
  lemma InsertBeforeLast(sorted: seq<Entry>, e: Entry)
    requires sorted != []
    requires Before(e.congratulationDate, sorted[|sorted| - 1].congratulationDate)
    ensures Insert(sorted, e) == Insert(sorted[..|sorted| - 1], e) + [sorted[|sorted| - 1]]
  {
  }

  lemma OnDaySnoc(es: seq<Entry>, e: Entry, k: Date)
    ensures OnDay(es + [e], k) == OnDay(es, k) + (if e.congratulationDate == k then [e] else [])
  {
    assert (es + [e])[..|es|] == es;
  }

  /** Stability: entries with the same date come out in the order they went
      in, so ties keep the book's iteration order. */
  lemma {:induction false} SortIsStable(es: seq<Entry>, k: Date)
    ensures OnDay(SortByDate(es), k) == OnDay(es, k)
  {
    if es != [] {
      var n := |es| - 1;
      SortIsStable(es[..n], k);
      InsertOnDay(SortByDate(es[..n]), es[n], k);
    }
  }

  // -------------------------------------------------------- the whole scan

  /** `get_upcoming_birthdays(days)` run on `today`. */
  function UpcomingBirthdays(cs: seq<Contact>, today: CalendarDate, days: int): (r: Result<seq<Entry>, Exception>)
    ensures r.Success? ==> |r.value| <= |cs|
    ensures r.Failure? ==> r.error.ValueError? || r.error.OverflowError?
  {
    var endOrdinal :- EndOrdinal(today, days);
    var es :- Collect(cs, today, endOrdinal);
    SortPermutes(es);
    assert |multiset(SortByDate(es))| == |es|;
    Success(SortByDate(es))
  }

  /** A record that yields an entry: it has a birthday, its projection `n`
      does not raise and lies in the inclusive window. */
  predicate InWindow(c: Contact, today: CalendarDate, days: int) {
    c.birthday.Some? && NextOccurrence(c.birthday.value, today).Success?
    && Ordinal(today) <= Ordinal(NextOccurrence(c.birthday.value, today).value) <= Ordinal(today) + days
  }

  lemma ConsiderMeaning(c: Contact, today: CalendarDate, days: int)
    requires EndOrdinal(today, days).Success?
    ensures var r := Consider(c, today, EndOrdinal(today, days).value);
            && (r.Success? && r.value.Some? <==> InWindow(c, today, days))
            && (InWindow(c, today, days) ==>
                  r.value.value == Entry(c.name, Congratulation(NextOccurrence(c.birthday.value, today).value)))
            && (r.Failure? <==> c.birthday.Some? && NextOccurrence(c.birthday.value, today).Failure?)
            && (r.Failure? ==> r.error == NextOccurrence(c.birthday.value, today).error)
  {
    if c.birthday.Some? && NextOccurrence(c.birthday.value, today).Success? {
      var n := NextOccurrence(c.birthday.value, today).value;
      OrdinalOrder(n, today);
      OrdinalMonotone(n, today);
    }
  }

  /** Every collected entry comes from a record whose birthday is in the window. */
  lemma {:induction false} CollectSound(cs: seq<Contact>, today: CalendarDate, endOrdinal: int)
    requires Collect(cs, today, endOrdinal).Success?
    ensures forall e :: e in Collect(cs, today, endOrdinal).value ==>
              exists j :: 0 <= j < |cs| && Consider(cs[j], today, endOrdinal) == Success(Some(e))
  {
    if cs != [] {
      var n := |cs| - 1;
      CollectSound(cs[..n], today, endOrdinal);
      forall e | e in Collect(cs, today, endOrdinal).value
        ensures exists j :: 0 <= j < |cs| && Consider(cs[j], today, endOrdinal) == Success(Some(e))
      {
        if e in Collect(cs[..n], today, endOrdinal).value {
          var j :| 0 <= j < n && Consider(cs[..n][j], today, endOrdinal) == Success(Some(e));
          assert cs[..n][j] == cs[j];
        } else {
          assert Consider(cs[n], today, endOrdinal) == Success(Some(e));
        }
      }
    }
  }

  /** Every record whose birthday is in the window has its entry collected. */
  lemma {:induction false} CollectComplete(cs: seq<Contact>, today: CalendarDate, endOrdinal: int, j: nat)
    requires Collect(cs, today, endOrdinal).Success?
    requires j < |cs| && Consider(cs[j], today, endOrdinal).Success? && Consider(cs[j], today, endOrdinal).value.Some?
    ensures Consider(cs[j], today, endOrdinal).value.value in Collect(cs, today, endOrdinal).value
  {
    var n := |cs| - 1;
    CollectLast(cs, today, endOrdinal);
    if j < n {
      assert cs[..n][j] == cs[j];
      CollectComplete(cs[..n], today, endOrdinal, j);
    }
  }

  /** A successful scan is the scan of all but the last record followed by
      the last record's entry, if any. */
  lemma CollectLast(cs: seq<Contact>, today: CalendarDate, endOrdinal: int)
    requires cs != [] && Collect(cs, today, endOrdinal).Success?
    ensures Collect(cs[..|cs| - 1], today, endOrdinal).Success?
    ensures Consider(cs[|cs| - 1], today, endOrdinal).Success?
    ensures var item := Consider(cs[|cs| - 1], today, endOrdinal).value;
            Collect(cs, today, endOrdinal).value
            == Collect(cs[..|cs| - 1], today, endOrdinal).value + (if item.Some? then [item.value] else [])
    ensures forall x :: x in Collect(cs[..|cs| - 1], today, endOrdinal).value ==> x in Collect(cs, today, endOrdinal).value
    ensures var item := Consider(cs[|cs| - 1], today, endOrdinal).value;
            item.Some? ==> item.value in Collect(cs, today, endOrdinal).value
  {
  }

  /** The scan aborts exactly when some record's projection raises, and then
      with the exception of the first such record. */
  lemma {:induction false} CollectFailure(cs: seq<Contact>, today: CalendarDate, endOrdinal: int)
    ensures Collect(cs, today, endOrdinal).Failure? <==>
              exists j :: 0 <= j < |cs| && Consider(cs[j], today, endOrdinal).Failure?
    ensures Collect(cs, today, endOrdinal).Failure? ==>
              exists j :: 0 <= j < |cs| && Consider(cs[j], today, endOrdinal) == Failure(Collect(cs, today, endOrdinal).error)
                && forall i :: 0 <= i < j ==> Consider(cs[i], today, endOrdinal).Success?
  {
    if cs != [] {
      var n := |cs| - 1;
      CollectFailure(cs[..n], today, endOrdinal);
      if Collect(cs[..n], today, endOrdinal).Failure? {
        var j :| 0 <= j < n && Consider(cs[..n][j], today, endOrdinal) == Failure(Collect(cs[..n], today, endOrdinal).error)
                 && forall i :: 0 <= i < j ==> Consider(cs[..n][i], today, endOrdinal).Success?;
        assert cs[..n][j] == cs[j];
        assert forall i :: 0 <= i < j ==> cs[..n][i] == cs[i];
      } else {
        assert forall i :: 0 <= i < n ==> cs[..n][i] == cs[i];
      }
    }
  }

  predicate DistinctNames(cs: seq<Contact>) {
    forall i, j :: 0 <= i < j < |cs| ==> cs[i].name != cs[j].name
  }

  predicate DistinctEntryNames(es: seq<Entry>) {
    forall i, j :: 0 <= i < j < |es| ==> es[i].name != es[j].name
  }

  /** Records with distinct names give entries with distinct names: at most
      one entry per record. */
  lemma {:induction false} CollectOnePerName(cs: seq<Contact>, today: CalendarDate, endOrdinal: int)
    requires DistinctNames(cs) && Collect(cs, today, endOrdinal).Success?
    ensures DistinctEntryNames(Collect(cs, today, endOrdinal).value)
  {
    if cs != [] {
      var n := |cs| - 1;
      var earlier := Collect(cs[..n], today, endOrdinal).value;
      assert DistinctNames(cs[..n]);
      CollectOnePerName(cs[..n], today, endOrdinal);
      CollectSound(cs[..n], today, endOrdinal);
      forall i | 0 <= i < |earlier|
        ensures earlier[i].name != cs[n].name
      {
        assert earlier[i] in earlier;
        var j :| 0 <= j < n && Consider(cs[..n][j], today, endOrdinal) == Success(Some(earlier[i]));
        assert cs[..n][j] == cs[j];
      }
    }
  }

  // ---------------------------------------------- what the scan promises

  /** Each returned entry belongs to a record whose birthday falls in
      `[today, today+days]`, and its date is that birthday moved off the
      weekend: never a Saturday or Sunday, at most two days later. */
  lemma UpcomingSound(cs: seq<Contact>, today: CalendarDate, days: int, e: Entry)
    requires UpcomingBirthdays(cs, today, days).Success?
    requires e in UpcomingBirthdays(cs, today, days).value
    ensures exists j :: 0 <= j < |cs| && cs[j].name == e.name && InWindow(cs[j], today, days)
              && e.congratulationDate == Congratulation(NextOccurrence(cs[j].birthday.value, today).value)
    ensures Weekday(e.congratulationDate) != Saturday && Weekday(e.congratulationDate) != Sunday
  {
    var endOrdinal := EndOrdinal(today, days).value;
    var es := Collect(cs, today, endOrdinal).value;
    SortPermutes(es);
    assert multiset(SortByDate(es))[e] == multiset(es)[e];
    CollectSound(cs, today, endOrdinal);
    var j :| 0 <= j < |cs| && Consider(cs[j], today, endOrdinal) == Success(Some(e));
    ConsiderMeaning(cs[j], today, days);
  }

  /** Each record whose birthday falls in the window is in the result. */
  lemma UpcomingComplete(cs: seq<Contact>, today: CalendarDate, days: int, j: nat)
    requires UpcomingBirthdays(cs, today, days).Success?
    requires j < |cs| && InWindow(cs[j], today, days)
    ensures Entry(cs[j].name, Congratulation(NextOccurrence(cs[j].birthday.value, today).value))
              in UpcomingBirthdays(cs, today, days).value
  {
    var endOrdinal := EndOrdinal(today, days).value;
    var es := Collect(cs, today, endOrdinal).value;
    var e := Entry(cs[j].name, Congratulation(NextOccurrence(cs[j].birthday.value, today).value));
    ConsiderMeaning(cs[j], today, days);
    assert Consider(cs[j], today, endOrdinal) == Success(Some(e));
    CollectComplete(cs, today, endOrdinal, j);
    SortPermutes(es);
    assert e in multiset(es);
    assert UpcomingBirthdays(cs, today, days).value == SortByDate(es);
  }

  /** The result is sorted by congratulation date, holds one entry per name
      when names are distinct (as the book's keys are), and entries sharing a
      date keep the iteration order of their records. */
  lemma UpcomingOrdered(cs: seq<Contact>, today: CalendarDate, days: int, k: Date)
    requires UpcomingBirthdays(cs, today, days).Success?
    ensures SortedByDate(UpcomingBirthdays(cs, today, days).value)
    ensures DistinctNames(cs) ==> DistinctEntryNames(UpcomingBirthdays(cs, today, days).value)
    ensures var endOrdinal := EndOrdinal(today, days).value;
            OnDay(UpcomingBirthdays(cs, today, days).value, k) == OnDay(Collect(cs, today, endOrdinal).value, k)
  {
    var endOrdinal := EndOrdinal(today, days).value;
    var es := Collect(cs, today, endOrdinal).value;
    SortIsSorted(es);
    SortIsStable(es, k);
    if DistinctNames(cs) {
      CollectOnePerName(cs, today, endOrdinal);
      SortKeepsDistinct(es);
    }
  }

  /** The scan raises exactly when the window end overflows or some record's
      projection raises (a Feb 29 birthday in a common year, or year 10000). */
  lemma UpcomingFailure(cs: seq<Contact>, today: CalendarDate, days: int)
    ensures UpcomingBirthdays(cs, today, days).Failure? <==>
              EndOrdinal(today, days).Failure?
              || exists j :: 0 <= j < |cs| && cs[j].birthday.Some? && NextOccurrence(cs[j].birthday.value, today).Failure?
  {
    if EndOrdinal(today, days).Success? {
      var endOrdinal := EndOrdinal(today, days).value;
      CollectFailure(cs, today, endOrdinal);
      forall j | 0 <= j < |cs|
        ensures Consider(cs[j], today, endOrdinal).Failure? <==>
                  cs[j].birthday.Some? && NextOccurrence(cs[j].birthday.value, today).Failure?
      {
        ConsiderMeaning(cs[j], today, days);
      }
    }
  }

  /** One Feb 29 birthday anywhere in the book aborts the whole scan with a
      ValueError when today's year is a common year. */
  lemma LeapDayAbortsScan(cs: seq<Contact>, today: CalendarDate, days: int, j: nat)
    requires EndOrdinal(today, days).Success?
    requires j < |cs| && cs[j].birthday.Some? && cs[j].birthday.value.month == 2 && cs[j].birthday.value.day == 29
    requires !IsLeapYear(today.year)
    ensures UpcomingBirthdays(cs, today, days).Failure?
    ensures UpcomingBirthdays(cs, today, days).error.ValueError?
  {
    LeapDayRaises(cs[j].birthday.value, today);
    UpcomingFailure(cs, today, days);
    var endOrdinal := EndOrdinal(today, days).value;
    CollectFailure(cs, today, endOrdinal);
    var i :| 0 <= i < |cs| && Consider(cs[i], today, endOrdinal) == Failure(Collect(cs, today, endOrdinal).error);
    ConsiderMeaning(cs[i], today, days);
  }
}
