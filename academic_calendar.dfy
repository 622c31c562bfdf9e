/** The student calendar page: the expansion of the academic calendar's weeks
    into a map from day to entry (events of the week, holiday marks, the week
    and month it belongs to) and the grouping of weeks under month names.
    Dates are day numbers; the table of weeks is a parameter.
    Line numbers in the comments below refer to frontend/src/pages/dashboard/student/Calendar.jsx. */
module AcademicCalendar {
  import opened Wrappers
  import opened Strings
  import opened Ordering

  /** One row of `academicCalendarData`; `holidays` and `holidayType` may be absent. */
  datatype Week = Week(
    number: int, month: string, startDate: int, endDate: int, activity: string, kind: string,
    holidays: Option<seq<int>>, holidayType: Option<string>)

  datatype WeekEvent = WeekEvent(activity: string, kind: string, week: int)

  /** One value of `datesMap`. */
  datatype DayEntry = DayEntry(
    date: int, events: seq<WeekEvent>, isHoliday: bool, holidayType: Option<string>, week: int, month: string)

  predicate Covers(w: Week, d: int) { w.startDate <= d <= w.endDate }

  function EventOf(w: Week): WeekEvent { WeekEvent(w.activity, w.kind, w.number) }

  /** `week.holidayType || 'H'`. */
  function HolidayKind(w: Week): string
  {
    if w.holidayType.Some? && w.holidayType.value != "" then w.holidayType.value else "H"
  }

  predicate ListsHoliday(w: Week, d: int) { w.holidays.Some? && d in w.holidays.value }

  /** Lines 65-74: the entry a day gets when no earlier week created one. */
  function FreshEntry(w: Week, d: int): (e: DayEntry)
    ensures e.events == [] && !e.isHoliday && e.holidayType.None?
    ensures e.date == d && e.week == w.number && e.month == w.month
  {
    DayEntry(d, [], false, None, w.number, w.month)
  }

  /** The entry of day `d` once week `w` has visited it (`visited`) or not. */
  function Grown(m: map<int, DayEntry>, w: Week, d: int, visited: bool): DayEntry
  {
    var e := if d in m then m[d] else FreshEntry(w, d);
    if visited && w.activity != "" then e.(events := e.events + [EventOf(w)]) else e
  }

  /** The entry after the holiday marks of `w`. */
  function Marked(e: DayEntry, w: Week, d: int): DayEntry
  {
    if ListsHoliday(w, d) then e.(isHoliday := true, holidayType := Some(HolidayKind(w))) else e
  }

  /** One pass of the day loop, lines 64-82. */
  function AddDay(m: map<int, DayEntry>, w: Week, d: int): map<int, DayEntry>
  {
    m[d := Grown(m, w, d, true)]
  }

  /** The day loop run over `[w.startDate, hi)`. */
  function Days(m: map<int, DayEntry>, w: Week, hi: int): map<int, DayEntry>
    decreases hi - w.startDate
  {
    if hi <= w.startDate then m else AddDay(Days(m, w, hi - 1), w, hi - 1)
  }

  /** The day loop adds exactly the days of `[w.startDate, hi)`, each grown once. */
  lemma {:induction false} DaysFacts(m: map<int, DayEntry>, w: Week, hi: int)
    ensures forall d :: d in Days(m, w, hi) <==> d in m || w.startDate <= d < hi
    ensures forall d :: d in Days(m, w, hi) ==> Days(m, w, hi)[d] == Grown(m, w, d, w.startDate <= d < hi)
    decreases hi - w.startDate
  {
    if hi > w.startDate {
      DaysFacts(m, w, hi - 1);
    }
  }

  /** One pass of the holiday loop, lines 88-91: only a day that is already a key. */
  function MarkHoliday(m: map<int, DayEntry>, h: int, w: Week): map<int, DayEntry>
  {
    if h in m then m[h := m[h].(isHoliday := true, holidayType := Some(HolidayKind(w)))] else m
  }

  /** The holiday loop run over `hs`. */
  function Marks(m: map<int, DayEntry>, hs: seq<int>, w: Week): map<int, DayEntry>
  {
    if hs == [] then m else MarkHoliday(Marks(m, hs[..|hs| - 1], w), hs[|hs| - 1], w)
  }

  /** The holiday loop adds no key and marks exactly the listed days that are keys. */
  lemma {:induction false} MarksFacts(m: map<int, DayEntry>, hs: seq<int>, w: Week)
    ensures Marks(m, hs, w).Keys == m.Keys
    ensures forall d :: d in Marks(m, hs, w) ==>
      Marks(m, hs, w)[d] == (if d in hs then m[d].(isHoliday := true, holidayType := Some(HolidayKind(w))) else m[d])
  {
    if hs != [] {
      var init := hs[..|hs| - 1];
      MarksFacts(m, init, w);
      assert hs == init + [hs[|hs| - 1]];
      assert forall d :: d in hs <==> d in init || d == hs[|hs| - 1];
    }
  }

  /** One pass of the week loop: its days, then its holidays. */
  function AddWeek(m: map<int, DayEntry>, w: Week): map<int, DayEntry>
  {
    var days := Days(m, w, w.endDate + 1);
    if w.holidays.Some? then Marks(days, w.holidays.value, w) else days
  }

  /** A week adds exactly its own days; every day it covers gains its event, and every
      listed holiday that is a key by then is marked. */
  lemma AddWeekFacts(m: map<int, DayEntry>, w: Week)
    ensures forall d :: d in AddWeek(m, w) <==> d in m || Covers(w, d)
    ensures forall d :: d in AddWeek(m, w) ==> AddWeek(m, w)[d] == Marked(Grown(m, w, d, Covers(w, d)), w, d)
  {
    DaysFacts(m, w, w.endDate + 1);
    if w.holidays.Some? {
      MarksFacts(Days(m, w, w.endDate + 1), w.holidays.value, w);
    }
  }

  /** `getCalendarDates` over the weeks in order. */
  function Dates(weeks: seq<Week>): map<int, DayEntry>
  {
    if weeks == [] then map[] else AddWeek(Dates(weeks[..|weeks| - 1]), weeks[|weeks| - 1])
  }

  /** Lines 63-83: the day loop of one week. */
  method VisitDays(m: map<int, DayEntry>, w: Week) returns (r: map<int, DayEntry>)
    ensures r == Days(m, w, w.endDate + 1)
  {
    r := m;
    var d := w.startDate;
    while d <= w.endDate
      invariant w.startDate <= d
      invariant d <= w.endDate + 1 || d == w.startDate
      invariant r == Days(m, w, d)
      decreases w.endDate - d
    {
      r := AddDay(r, w, d);
      d := d + 1;
    }
  }

  /** Lines 86-93: the holiday loop of one week. */
  method MarkWeekHolidays(m: map<int, DayEntry>, hs: seq<int>, w: Week) returns (r: map<int, DayEntry>)
    ensures r == Marks(m, hs, w)
  {
    r := m;
    var k := 0;
    while k < |hs|
      invariant 0 <= k <= |hs|
      invariant r == Marks(m, hs[..k], w)
    {
      assert hs[..k + 1][..k] == hs[..k];
      r := MarkHoliday(r, hs[k], w);
      k := k + 1;
    }
    assert hs[..|hs|] == hs;
  }

  /** Lines 56-97. */
  method CalendarDates(weeks: seq<Week>) returns (datesMap: map<int, DayEntry>)
    ensures datesMap == Dates(weeks)
  {
    datesMap := map[];
    var i := 0;
    while i < |weeks|
      invariant 0 <= i <= |weeks|
      invariant datesMap == Dates(weeks[..i])
    {
      var w := weeks[i];
      datesMap := VisitDays(datesMap, w);
      if w.holidays.Some? {
        datesMap := MarkWeekHolidays(datesMap, w.holidays.value, w);
      }
      assert weeks[..i + 1][..i] == weeks[..i];
      i := i + 1;
    }
    assert weeks[..|weeks|] == weeks;
  }

  /** The events a day shows: those of the weeks covering it that have an activity, in
      week order. */
  function CoveringEvents(weeks: seq<Week>, d: int): seq<WeekEvent>
  {
    if weeks == [] then []
    else
      var last := weeks[|weeks| - 1];
      CoveringEvents(weeks[..|weeks| - 1], d) + (if Covers(last, d) && last.activity != "" then [EventOf(last)] else [])
  }

  predicate CoveredBy(weeks: seq<Week>, d: int)
  {
    exists i :: 0 <= i < |weeks| && Covers(weeks[i], d)
  }

  /** The first week that covers `d`, when `i` is that week. */
  predicate FirstCover(weeks: seq<Week>, d: int, i: int)
  {
    0 <= i < |weeks| && Covers(weeks[i], d) && forall j :: 0 <= j < i ==> !Covers(weeks[j], d)
  }

  /** Every day of every week is a key, and nothing else is; each entry shows the events
      of the covering weeks with an activity, in week order. */
  lemma {:induction false} DatesKeysAndEvents(weeks: seq<Week>)
    ensures forall d :: d in Dates(weeks) <==> CoveredBy(weeks, d)
    ensures forall d :: d in Dates(weeks) ==> Dates(weeks)[d].events == CoveringEvents(weeks, d)
  {
    if weeks != [] {
      var init, last := weeks[..|weeks| - 1], weeks[|weeks| - 1];
      DatesKeysAndEvents(init);
      AddWeekFacts(Dates(init), last);
      forall d ensures CoveredBy(weeks, d) <==> CoveredBy(init, d) || Covers(last, d) {
        if CoveredBy(init, d) {
          var i :| 0 <= i < |init| && Covers(init[i], d);
          assert weeks[i] == init[i];
        }
        if CoveredBy(weeks, d) {
          var i :| 0 <= i < |weeks| && Covers(weeks[i], d);
          if i < |init| {
            assert init[i] == weeks[i];
          }
        }
      }
      forall d | d in Dates(weeks) ensures Dates(weeks)[d].events == CoveringEvents(weeks, d) {
        if d !in Dates(init) {
          assert CoveringEvents(init, d) == [] by {
            NoCoverNoEvents(init, d);
          }
        }
      }
    }
  }

  lemma {:induction false} NoCoverNoEvents(weeks: seq<Week>, d: int)
    requires !CoveredBy(weeks, d)
    ensures CoveringEvents(weeks, d) == []
  {
    if weeks != [] {
      var init := weeks[..|weeks| - 1];
      forall i | 0 <= i < |init| ensures !Covers(init[i], d) {
        assert init[i] == weeks[i];
      }
      NoCoverNoEvents(init, d);
    }
  }

  /** A day's week number and month label come from the first week that covers it. */
  lemma {:induction false} DatesWeekAndMonth(weeks: seq<Week>, d: int, i: int)
    requires FirstCover(weeks, d, i)
    ensures d in Dates(weeks)
    ensures Dates(weeks)[d].week == weeks[i].number && Dates(weeks)[d].month == weeks[i].month
  {
    DatesKeysAndEvents(weeks);
    var init, last := weeks[..|weeks| - 1], weeks[|weeks| - 1];
    AddWeekFacts(Dates(init), last);
    if i < |init| {
      assert FirstCover(init, d, i) by {
        forall j | 0 <= j < i ensures !Covers(init[j], d) {
          assert init[j] == weeks[j];
        }
      }
      DatesWeekAndMonth(init, d, i);
    } else {
      DatesKeysAndEvents(init);
      forall j | 0 <= j < |init| ensures !Covers(init[j], d) {
        assert init[j] == weeks[j];
      }
      assert d !in Dates(init);
    }
  }

  /** A day that no week lists as a holiday keeps the fresh entry's marks. */
  lemma {:induction false} NoHolidayUnmarked(weeks: seq<Week>, d: int)
    requires forall i :: 0 <= i < |weeks| ==> !ListsHoliday(weeks[i], d)
    ensures d in Dates(weeks) ==> !Dates(weeks)[d].isHoliday && Dates(weeks)[d].holidayType.None?
  {
    if weeks != [] {
      var init := weeks[..|weeks| - 1];
      forall i | 0 <= i < |init| ensures !ListsHoliday(init[i], d) {
        assert init[i] == weeks[i];
      }
      NoHolidayUnmarked(init, d);
      AddWeekFacts(Dates(init), weeks[|weeks| - 1]);
    }
  }

  /** Once a day is marked it stays marked, whatever later weeks do. */
  lemma {:induction false} MarkPersists(weeks: seq<Week>, n: nat, d: int)
    requires n <= |weeks|
    requires d in Dates(weeks[..n]) && Dates(weeks[..n])[d].isHoliday
    ensures d in Dates(weeks) && Dates(weeks)[d].isHoliday
    decreases |weeks| - n
  {
    if n < |weeks| {
      assert weeks[..n + 1][..n] == weeks[..n];
      AddWeekFacts(Dates(weeks[..n]), weeks[n]);
      MarkPersists(weeks, n + 1, d);
    } else {
      assert weeks[..n] == weeks;
    }
  }

  /** A holiday listed by week `i` is marked when some week up to `i` covers the day. */
  lemma HolidayMarked(weeks: seq<Week>, d: int, i: int, j: int)
    requires 0 <= j <= i < |weeks| && Covers(weeks[j], d) && ListsHoliday(weeks[i], d)
    ensures d in Dates(weeks) && Dates(weeks)[d].isHoliday
  {
    var upTo := weeks[..i + 1];
    DatesKeysAndEvents(upTo[..i]);
    assert upTo[..i] == weeks[..i];
    assert upTo[i] == weeks[i];
    AddWeekFacts(Dates(upTo[..i]), upTo[i]);
    assert d in Dates(upTo) by {
      DatesKeysAndEvents(upTo);
      assert upTo[j] == weeks[j];
    }
    MarkPersists(weeks, i + 1, d);
  }

  /** Weeks that do not list a day leave its holiday marks as they found them. */
  lemma {:induction false} MarksKept(weeks: seq<Week>, n: nat, d: int)
    requires n <= |weeks| && d in Dates(weeks[..n])
    requires forall j :: n <= j < |weeks| ==> !ListsHoliday(weeks[j], d)
    ensures d in Dates(weeks)
    ensures Dates(weeks)[d].isHoliday == Dates(weeks[..n])[d].isHoliday
    ensures Dates(weeks)[d].holidayType == Dates(weeks[..n])[d].holidayType
    decreases |weeks| - n
  {
    if n < |weeks| {
      assert weeks[..n + 1][..n] == weeks[..n];
      AddWeekFacts(Dates(weeks[..n]), weeks[n]);
      MarksKept(weeks, n + 1, d);
    } else {
      assert weeks[..n] == weeks;
    }
  }

  /** A holiday listed only before the first week that covers its day is lost: the day is
      not a key when it is listed, and the week that creates it, like every later one,
      leaves it unmarked. */
  lemma HolidayBeforeItsWeekIsLost(weeks: seq<Week>, d: int, i: int)
    requires FirstCover(weeks, d, i)
    requires forall j :: i <= j < |weeks| ==> !ListsHoliday(weeks[j], d)
    ensures d in Dates(weeks) && !Dates(weeks)[d].isHoliday && Dates(weeks)[d].holidayType.None?
  {
    var upTo := weeks[..i + 1];
    assert upTo[..i] == weeks[..i];
    assert upTo[i] == weeks[i];
    DatesKeysAndEvents(weeks[..i]);
    assert d !in Dates(weeks[..i]) by {
      forall j | 0 <= j < i ensures !Covers(weeks[..i][j], d) {
        assert weeks[..i][j] == weeks[j];
      }
    }
    AddWeekFacts(Dates(upTo[..i]), upTo[i]);
    MarksKept(weeks, i + 1, d);
  }

  /** The last week to list a holiday on a day that exists by then decides its type, `'H'`
      when that week gives none; later weeks that do not list the day keep it. */
  lemma HolidayTypeFromWeek(weeks: seq<Week>, d: int, i: int)
    requires 0 <= i < |weeks| && ListsHoliday(weeks[i], d) && d in Dates(weeks[..i + 1])
    requires forall j :: i < j < |weeks| ==> !ListsHoliday(weeks[j], d)
    ensures d in Dates(weeks) && Dates(weeks)[d].isHoliday
    ensures Dates(weeks)[d].holidayType == Some(HolidayKind(weeks[i]))
    ensures weeks[i].holidayType.None? ==> Dates(weeks)[d].holidayType == Some("H")
  {
    var upTo := weeks[..i + 1];
    assert upTo[|upTo| - 1] == weeks[i];
    LastWeekMarks(upTo, d);
    MarksKept(weeks, i + 1, d);
  }

  lemma LastWeekMarks(weeks: seq<Week>, d: int)
    requires weeks != [] && ListsHoliday(weeks[|weeks| - 1], d) && d in Dates(weeks)
    ensures Dates(weeks)[d].isHoliday
    ensures Dates(weeks)[d].holidayType == Some(HolidayKind(weeks[|weeks| - 1]))
  {
    AddWeekFacts(Dates(weeks[..|weeks| - 1]), weeks[|weeks| - 1]);
  }

  // ---------------------------------------------------------------------------------------
  // Month grouping

  /** Line 103. */
  function Months(): seq<string>
  {
    ["June", "July", "August", "September", "October", "November", "December"]
  }

  function MentionsMonth(month: string): Week -> bool
  {
    (w: Week) => IsSubstring(month, w.month)
  }

  /** Lines 106-108: the weeks whose month label contains the month name, in order. */
  function MonthData(weeks: seq<Week>): (r: map<string, seq<Week>>)
    ensures r.Keys == set m | m in Months()
    ensures forall m :: m in r ==> forall w :: w in r[m] <==> w in weeks && IsSubstring(m, w.month)
  {
    map m | m in Months() :: Filter(weeks, MentionsMonth(m))
  }

  /** A week spanning two months, labelled `June/July`, appears under both. */
  lemma SpanningWeekUnderBoth(weeks: seq<Week>, w: Week)
    requires w in weeks && w.month == "June/July"
    ensures w in MonthData(weeks)["June"] && w in MonthData(weeks)["July"]
  {
    assert OccursAt("June", w.month, 0);
    assert OccursAt("July", w.month, 5);
  }

  /** Grouping keeps the table's order within a month. */
  lemma MonthDataOrder(weeks: seq<Week>, a: seq<Week>, b: seq<Week>, m: string)
    requires weeks == a + b && m in Months()
    ensures MonthData(weeks)[m] == Filter(a, MentionsMonth(m)) + Filter(b, MentionsMonth(m))
  {
    FilterAppend(a, b, MentionsMonth(m));
  }
}
