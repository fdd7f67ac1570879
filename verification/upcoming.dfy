/** The selection rule of AddressBook.get_upcoming_birthdays, as functions of
    the store's entries (in iteration order) and the reference date that the
    program reads from the clock. */
module Upcoming {
  import opened Wrappers
  import opened Calendar
  import Fields
  import Strings

  /** What the computation reads from one record: its name text and its
      birthday, if any. */
  datatype Entry = Entry(name: string, birthday: Option<Date>)

  /** One element of the result: the name and the congratulation date as
      strftime('%Y.%m.%d') renders it. */
  datatype Greeting = Greeting(name: string, date: string)

  predicate EntryValid(e: Entry) {
    e.birthday.Some? ==> ValidDate(e.birthday.value)
  }

  predicate EntriesValid(es: seq<Entry>) {
    forall i :: 0 <= i < |es| ==> EntryValid(es[i])
  }

  /** The birthday moved into the reference year, or into the next year when
      that date has already passed; replace() raises for 29 February in a
      common year and for year 10000. */
  function NextOccurrence(bd: Date, today: Date): (r: Result<Date>)
    requires ValidDate(bd) && ValidDate(today)
    ensures r.Ok? ==>
      ValidDate(r.value) && r.value.month == bd.month && r.value.day == bd.day
      && !Before(r.value, today)
  {
    match ReplaceYear(bd, today.year)
    case Err(e) => Err(e)
    case Ok(t) => if Before(t, today) then ReplaceYear(t, today.year + 1) else Ok(t)
  }

  /** (occurrence - today).days */
  function DaysUntil(o: Date, today: Date): int
    requires WellFormed(o) && WellFormed(today)
  {
    Ordinal(o) - Ordinal(today)
  }

  /** The shift in days the program adds to an occurrence: (7 - weekday) % 7. */
  function CongratulationShift(o: Date): int
    requires ValidDate(o)
  {
    (7 - Weekday(o)) % 7
  }

  /** The congratulation date: the occurrence shifted by CongratulationShift,
      so on the occurrence or at most six days after it. */
  function Congratulation(o: Date): (r: Result<Date>)
    requires ValidDate(o)
    ensures r.Ok? ==> ValidDate(r.value) && Ordinal(o) <= Ordinal(r.value) <= Ordinal(o) + 6
  {
    Shift(o, CongratulationShift(o))
  }

  /** What one record contributes: nothing without a birthday or outside the
      0..7 day window, one greeting inside it, or the exception raised on
      the way. */
  function EntryGreetings(e: Entry, today: Date): (r: Result<seq<Greeting>>)
    requires EntryValid(e) && ValidDate(today)
    ensures r.Ok? ==> |r.value| <= 1
    ensures r.Ok? && r.value != [] ==> r.value[0].name == e.name && |r.value[0].date| == 10
  {
    if e.birthday.None? then Ok([])
    else
      match NextOccurrence(e.birthday.value, today)
      case Err(m) => Err(m)
      case Ok(o) =>
        var days := DaysUntil(o, today);
        if 0 <= days <= 7 then
          match Congratulation(o)
          case Err(m) => Err(m)
          case Ok(c) => Ok([Greeting(e.name, YearMonthDayText(c))])
        else Ok([])
  }

  /** The loop's bookkeeping over the step results, in order: the first
      failure ends it with no list, otherwise the greetings are
      concatenated. */
  function Combine<T>(rs: seq<Result<seq<T>>>): Result<seq<T>>
    decreases |rs|
  {
    if rs == [] then Ok([])
    else
      match Combine(rs[..|rs| - 1])
      case Err(m) => Err(m)
      case Ok(acc) =>
        match rs[|rs| - 1]
        case Err(m) => Err(m)
        case Ok(g) => Ok(acc + g)
  }

  /** Each entry's contribution, in iteration order. */
  function Steps(es: seq<Entry>, today: Date): (rs: seq<Result<seq<Greeting>>>)
    requires EntriesValid(es) && ValidDate(today)
    ensures |rs| == |es|
    ensures forall i :: 0 <= i < |es| ==> rs[i] == EntryGreetings(es[i], today)
  {
    seq(|es|, i requires 0 <= i < |es| && EntryValid(es[i]) && ValidDate(today) => EntryGreetings(es[i], today))
  }

  /** The whole result of get_upcoming_birthdays for the entries in order. */
  function Collect(es: seq<Entry>, today: Date): Result<seq<Greeting>>
    requires EntriesValid(es) && ValidDate(today)
  {
    Combine(Steps(es, today))
  }

  // ---------------------------------------------------------------------
  // Properties
  // ---------------------------------------------------------------------

  lemma LeapYearsApart(y: int)
    ensures IsLeap(y) ==> !IsLeap(y + 1)
  {
  }

  /** The next occurrence keeps the month and day, is on or after the
      reference date, lies in the reference year unless the birthday there
      has already passed, and is less than a year away. It fails exactly
      for 29 February when that day is missing from the year it lands in,
      and when it would land in year 10000. */
  lemma {:induction false} NextOccurrenceFacts(bd: Date, today: Date)
    requires ValidDate(bd) && ValidDate(today)
    ensures var t := Date(today.year, bd.month, bd.day);
      var passed := Before(t, today);
      var leapDay := bd.month == 2 && bd.day == 29;
      NextOccurrence(bd, today).Err? <==>
        (leapDay && (!IsLeap(today.year) || passed)) || (passed && today.year == MaxYear)
    ensures NextOccurrence(bd, today).Ok? ==>
      var o := NextOccurrence(bd, today).value;
      var t := Date(today.year, bd.month, bd.day);
      ValidDate(o) && o.month == bd.month && o.day == bd.day
      && (o.year == today.year || (o.year == today.year + 1 && Before(t, today)))
      && !Before(o, today)
      && 0 <= Ordinal(o) - Ordinal(today) <= 365
  {
    var t := Date(today.year, bd.month, bd.day);
    LeapYearsApart(today.year);
    var r := NextOccurrence(bd, today);
    if r.Ok? {
      var o := r.value;
      BeforeIffOrdinalLess(o, today);
      if o.year == today.year {
        SameYearGap(o, today);
      } else {
        BeforeIffOrdinalLess(t, today);
        NextYearGap(t, o);
      }
    }
  }

  /** Two dates of one year are at most 365 days apart. */
  lemma SameYearGap(a: Date, b: Date)
    requires WellFormed(a) && WellFormed(b) && a.year == b.year
    ensures Ordinal(a) - Ordinal(b) <= 365
  {
    OrdinalWithinYear(a);
    OrdinalWithinYear(b);
  }

  /** The same month and day one year later is at most 366 days on. */
  lemma NextYearGap(t: Date, o: Date)
    requires WellFormed(t) && WellFormed(o)
    requires o == Date(t.year + 1, t.month, t.day)
    ensures Ordinal(o) - Ordinal(t) <= 366
  {
    DaysBeforeYearStep(t.year);
  }

  /** Moving n days on moves the weekday n places round the week. */
  lemma WeekdayAfter(o: Date, c: Date, n: int)
    requires WellFormed(o) && WellFormed(c) && n >= 0 && Ordinal(c) == Ordinal(o) + n
    ensures Weekday(c) == (Weekday(o) + n) % 7
  {
    ModSevenShift(Ordinal(o) + 6, n);
  }

  lemma ModSevenShift(a: int, n: int)
    ensures (a + n) % 7 == (a % 7 + n) % 7
  {
    var q := a / 7;
    assert a + n == 7 * q + (a % 7 + n);
  }

  /** The shifted date is always a Monday, at most six days after the
      occurrence, and equal to it exactly when the occurrence is a Monday.
      The shift fails only past 31.12.9999, so only for an occurrence in the
      last six days of year 9999. */
  lemma {:induction false} CongratulationFacts(o: Date)
    requires ValidDate(o)
    ensures 0 <= CongratulationShift(o) <= 6
    ensures CongratulationShift(o) == 0 <==> Weekday(o) == 0
    ensures Congratulation(o).Ok? ==>
      var c := Congratulation(o).value;
      Weekday(c) == 0
      && Ordinal(c) == Ordinal(o) + CongratulationShift(o)
      && (c == o <==> Weekday(o) == 0)
    ensures Congratulation(o).Err? ==> o.year == MaxYear && o.month == 12 && o.day >= 26
  {
    ShiftToMonday(Weekday(o));
    if Congratulation(o).Ok? {
      CongratulationOk(o);
    } else {
      var e := AddDays(o, CongratulationShift(o));
      OrdinalWithinYear(e);
      DaysBeforeYearGrowth(MaxYear + 1, e.year);
      LastWeekOfTime(o);
    }
  }

  /** (7 - w) % 7 is the distance from weekday w to the next Monday. */
  lemma ShiftToMonday(w: int)
    requires 0 <= w < 7
    ensures var n := (7 - w) % 7;
      0 <= n <= 6 && (n == 0 <==> w == 0) && (w + n) % 7 == 0
  {
  }

  lemma CongratulationOk(o: Date)
    requires ValidDate(o) && Congratulation(o).Ok?
    ensures var c := Congratulation(o).value;
      Weekday(c) == 0
      && Ordinal(c) == Ordinal(o) + CongratulationShift(o)
      && (c == o <==> Weekday(o) == 0)
  {
    MondayOn(o, Congratulation(o).value);
  }

  /** A date CongratulationShift(o) days after o is a Monday, and is o
      itself exactly when o is a Monday. */
  lemma MondayOn(o: Date, c: Date)
    requires ValidDate(o) && WellFormed(c) && Ordinal(c) == Ordinal(o) + CongratulationShift(o)
    ensures Weekday(c) == 0 && (c == o <==> Weekday(o) == 0)
  {
    MondayAfterShift(o, c, CongratulationShift(o));
    BeforeIffOrdinalLess(c, o);
  }

  /** A date (7 - weekday) % 7 days after o is a Monday. */
  lemma MondayAfterShift(o: Date, c: Date, n: int)
    requires WellFormed(o) && WellFormed(c)
    requires n == (7 - Weekday(o)) % 7 && Ordinal(c) == Ordinal(o) + n
    ensures Weekday(c) == 0 && (n == 0 <==> Weekday(o) == 0)
  {
    MondayArithmetic(Ordinal(o), n);
  }

  /** On day numbers: a shift by (7 - weekday) % 7 lands on a Monday. */
  lemma MondayArithmetic(a: int, n: int)
    requires n == (7 - (a + 6) % 7) % 7
    ensures (a + n + 6) % 7 == 0
    ensures n == 0 <==> (a + 6) % 7 == 0
  {
    var w := (a + 6) % 7;
    ShiftToMonday(w);
    ModSevenShift(a + 6, n);
  }

  /** Within six days of 31.12.9999 means in its last six days. */
  lemma LastWeekOfTime(o: Date)
    requires ValidDate(o) && Ordinal(o) + 6 > DaysBeforeYear(MaxYear + 1)
    ensures o.year == MaxYear && o.month == 12 && o.day >= 26
  {
    var last := Date(MaxYear, 12, 25);
    DaysBeforeYearStep(MaxYear);
    assert Ordinal(last) + 6 == DaysBeforeYear(MaxYear + 1);
    BeforeIffOrdinalLess(last, o);
  }

  /** A record without a birthday contributes nothing. One with a birthday
      raises exactly when its next occurrence cannot be formed, or when the
      occurrence is at most 7 days away and its congratulation date cannot
      be formed; otherwise it contributes a greeting exactly when the
      occurrence is 0 to 7 days away, and the greeting carries the record's
      name and the rendered congratulation date, a Monday. */
  lemma {:induction false} EntryGreetingsIff(e: Entry, today: Date)
    requires EntryValid(e) && ValidDate(today)
    ensures e.birthday.None? ==> EntryGreetings(e, today) == Ok([])
    ensures EntryGreetings(e, today).Err? <==>
      e.birthday.Some?
      && (NextOccurrence(e.birthday.value, today).Err?
          || (Ordinal(NextOccurrence(e.birthday.value, today).value) - Ordinal(today) <= 7
              && Congratulation(NextOccurrence(e.birthday.value, today).value).Err?))
    ensures EntryGreetings(e, today).Ok? ==>
      var g := EntryGreetings(e, today).value;
      |g| <= 1
      && (g != [] <==>
            e.birthday.Some? && NextOccurrence(e.birthday.value, today).Ok?
            && Ordinal(NextOccurrence(e.birthday.value, today).value) - Ordinal(today) <= 7)
      && (g != [] ==>
            var o := NextOccurrence(e.birthday.value, today).value;
            var c := Congratulation(o);
            g[0].name == e.name && c.Ok? && g[0].date == YearMonthDayText(c.value)
            && Weekday(c.value) == 0 && 0 <= Ordinal(c.value) - Ordinal(o) <= 6)
  {
    if e.birthday.Some? && NextOccurrence(e.birthday.value, today).Ok? {
      var o := NextOccurrence(e.birthday.value, today).value;
      NextOccurrenceFacts(e.birthday.value, today);
      CongratulationFacts(o);
    }
  }

  /** The rendered congratulation date names one date only: two dates with
      the same '%Y.%m.%d' text are the same date. */
  lemma GreetingDateNamesOneDate(a: Date, b: Date)
    requires ValidDate(a) && ValidDate(b)
    ensures YearMonthDayText(a) == YearMonthDayText(b) <==> a == b
  {
    if YearMonthDayText(a) == YearMonthDayText(b) {
      Fields.DigitsValuePad4(a.year);
      Fields.DigitsValuePad4(b.year);
      Fields.DigitsValuePad2(a.month);
      Fields.DigitsValuePad2(b.month);
      Fields.DigitsValuePad2(a.day);
      Fields.DigitsValuePad2(b.day);
    }
  }

  /** A failed run of the loop fails with the error of one of its steps. */
  lemma {:induction false} CombineFails<T>(rs: seq<Result<seq<T>>>)
    ensures Combine(rs).Err? ==> exists i :: 0 <= i < |rs| && rs[i] == Err(Combine(rs).error)
    decreases |rs|
  {
    if rs != [] {
      var front := rs[..|rs| - 1];
      CombineFails(front);
      if Combine(front).Err? {
        var i :| 0 <= i < |front| && front[i] == Err(Combine(front).error);
        assert rs[i] == front[i];
      }
    }
  }

  /** A failure of the whole computation is the exception one of the
      records raised. */
  lemma CollectFails(es: seq<Entry>, today: Date)
    requires EntriesValid(es) && ValidDate(today)
    ensures Collect(es, today).Err? ==>
      exists i :: 0 <= i < |es| && EntryGreetings(es[i], today) == Err(Collect(es, today).error)
  {
    CombineFails(Steps(es, today));
  }

  /** Running two lists of steps one after the other. */
  lemma {:induction false} CombineAppend<T>(r: seq<Result<seq<T>>>, s: seq<Result<seq<T>>>)
    ensures Combine(r).Err? ==> Combine(r + s) == Combine(r)
    ensures Combine(r).Ok? && Combine(s).Err? ==> Combine(r + s) == Combine(s)
    ensures Combine(r).Ok? && Combine(s).Ok? ==>
      Combine(r + s) == Ok(Combine(r).value + Combine(s).value)
    decreases |s|
  {
    if s == [] {
      assert r + s == r;
      if Combine(r).Ok? {
        assert Combine(r).value + [] == Combine(r).value;
      }
    } else {
      var s0, last := s[..|s| - 1], s[|s| - 1];
      var rs := r + s;
      assert rs[..|rs| - 1] == r + s0;
      assert rs[|rs| - 1] == last;
      CombineAppend(r, s0);
      if Combine(r).Ok? && Combine(s0).Ok? && last.Ok? {
        Strings.ConcatAssoc(Combine(r).value, Combine(s0).value, last.value);
      }
    }
  }

  /** Every piece of a successful run comes from a successful step, and
      every successful step's pieces are in the run. */
  lemma {:induction false} CombineSelects<T>(rs: seq<Result<seq<T>>>)
    ensures Combine(rs).Ok? ==>
      forall i :: 0 <= i < |rs| ==>
        rs[i].Ok? && forall g :: g in rs[i].value ==> g in Combine(rs).value
    ensures Combine(rs).Ok? ==>
      forall g :: g in Combine(rs).value ==> exists i :: 0 <= i < |rs| && rs[i].Ok? && g in rs[i].value
    decreases |rs|
  {
    if rs != [] && Combine(rs).Ok? {
      var init, last := rs[..|rs| - 1], rs[|rs| - 1];
      CombineSelects(init);
      var acc := Combine(init).value;
      assert Combine(rs).value == acc + last.value;
      forall i | 0 <= i < |rs|
        ensures rs[i].Ok? && forall g :: g in rs[i].value ==> g in Combine(rs).value
      {
        if i < |rs| - 1 {
          assert rs[i] == init[i];
        }
      }
      forall g | g in Combine(rs).value
        ensures exists i :: 0 <= i < |rs| && rs[i].Ok? && g in rs[i].value
      {
        if g in acc {
          var i :| 0 <= i < |init| && init[i].Ok? && g in init[i].value;
          assert rs[i] == init[i];
        } else {
          assert g in last.value;
        }
      }
    }
  }

  lemma StepsAppend(a: seq<Entry>, b: seq<Entry>, today: Date)
    requires EntriesValid(a) && EntriesValid(b) && ValidDate(today)
    ensures EntriesValid(a + b)
    ensures Steps(a + b, today) == Steps(a, today) + Steps(b, today)
  {
    var ab := a + b;
    assert forall i :: 0 <= i < |a| ==> ab[i] == a[i];
    assert forall i :: |a| <= i < |ab| ==> ab[i] == b[i - |a|];
  }

  lemma StepsPrefix(es: seq<Entry>, k: nat, today: Date)
    requires EntriesValid(es) && ValidDate(today) && k <= |es|
    ensures EntriesValid(es[..k])
    ensures Steps(es[..k], today) == Steps(es, today)[..k]
  {
    assert forall i :: 0 <= i < k ==> es[..k][i] == es[i];
  }

  /** The result for a longer store is the result for its first part
      followed by the result for the rest: output order is store order, and
      the first failure in store order is the one reported. */
  lemma CollectAppend(a: seq<Entry>, b: seq<Entry>, today: Date)
    requires EntriesValid(a) && EntriesValid(b) && ValidDate(today)
    ensures EntriesValid(a + b)
    ensures Collect(a, today).Err? ==> Collect(a + b, today) == Collect(a, today)
    ensures Collect(a, today).Ok? && Collect(b, today).Err? ==> Collect(a + b, today) == Collect(b, today)
    ensures Collect(a, today).Ok? && Collect(b, today).Ok? ==>
      Collect(a + b, today) == Ok(Collect(a, today).value + Collect(b, today).value)
  {
    StepsAppend(a, b, today);
    CombineAppend(Steps(a, today), Steps(b, today));
  }

  /** One more entry of the store extends a successful result by that
      entry's greetings, or fails with its error. */
  lemma CollectExtend(es: seq<Entry>, i: nat, today: Date)
    requires EntriesValid(es) && ValidDate(today) && i < |es|
    requires Collect(es[..i], today).Ok?
    ensures var step := EntryGreetings(es[i], today);
      Collect(es[..i + 1], today) ==
        if step.Err? then Err(step.error) else Ok(Collect(es[..i], today).value + step.value)
  {
    var rs := Steps(es, today);
    StepsPrefix(es, i, today);
    StepsPrefix(es, i + 1, today);
    assert rs[..i + 1][..i] == rs[..i];
  }

  /** Once a prefix of the store fails, the whole computation fails with
      the same error. */
  lemma CollectPrefixFails(es: seq<Entry>, k: nat, today: Date)
    requires EntriesValid(es) && ValidDate(today) && k <= |es|
    ensures Collect(es[..k], today).Err? ==> Collect(es, today) == Collect(es[..k], today)
  {
    var rs := Steps(es, today);
    StepsPrefix(es, k, today);
    CombineAppend(rs[..k], rs[k..]);
    assert rs[..k] + rs[k..] == rs;
  }

  /** Every greeting in a successful result comes from some entry, and every
      entry's greeting is in the result. */
  lemma CollectSelects(es: seq<Entry>, today: Date)
    requires EntriesValid(es) && ValidDate(today)
    ensures Collect(es, today).Ok? ==>
      forall i :: 0 <= i < |es| ==>
        EntryGreetings(es[i], today).Ok?
        && forall g :: g in EntryGreetings(es[i], today).value ==> g in Collect(es, today).value
    ensures Collect(es, today).Ok? ==>
      forall g :: g in Collect(es, today).value ==>
        exists i :: 0 <= i < |es| && g in EntryGreetings(es[i], today).value
  {
    CombineSelects(Steps(es, today));
  }

  /** A worked example: on Monday 10.06.2024 a birthday on
      13 June is 3 days away and falls on a Thursday, and the formula moves
      the congratulation to Monday 17.06.2024; a birthday on Saturday 15 June
      also moves to 17.06.2024. */
  lemma UpcomingExample()
    ensures NextOccurrence(Date(1990, 6, 13), Date(2024, 6, 10)) == Ok(Date(2024, 6, 13))
    ensures Ordinal(Date(2024, 6, 13)) - Ordinal(Date(2024, 6, 10)) == 3
    ensures Weekday(Date(2024, 6, 10)) == 0 && Weekday(Date(2024, 6, 13)) == 3
    ensures EntryGreetings(Entry("Ann", Some(Date(1990, 6, 13))), Date(2024, 6, 10))
      == Ok([Greeting("Ann", "2024.06.17")])
    ensures EntryGreetings(Entry("Bob", Some(Date(1990, 6, 15))), Date(2024, 6, 10))
      == Ok([Greeting("Bob", "2024.06.17")])
  {
    var today := Date(2024, 6, 10);
    assert DaysBeforeYear(2024) == 738885;
    assert Ordinal(today) == 739047;
    assert Weekday(today) == 0;
    var thu, sat, mon := Date(2024, 6, 13), Date(2024, 6, 15), Date(2024, 6, 17);
    assert Ordinal(thu) == 739050 && Weekday(thu) == 3 && CongratulationShift(thu) == 4;
    assert Ordinal(sat) == 739052 && Weekday(sat) == 5 && CongratulationShift(sat) == 2;
    assert NextOccurrence(Date(1990, 6, 13), today) == Ok(thu);
    assert NextOccurrence(Date(1990, 6, 15), today) == Ok(sat);
    assert AddDays(Date(2024, 6, 16), 1) == mon;
    assert AddDays(sat, 2) == mon;
    assert AddDays(Date(2024, 6, 14), 3) == mon;
    assert AddDays(thu, 4) == mon;
    assert Congratulation(thu) == Ok(mon);
    assert Congratulation(sat) == Ok(mon);
    ExampleMondayText();
  }

  lemma ExampleMondayText()
    ensures YearMonthDayText(Date(2024, 6, 17)) == "2024.06.17"
  {
    assert Pad4(2024) == "2024" && Pad2(6) == "06" && Pad2(17) == "17";
  }
}
