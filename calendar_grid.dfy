/** `generateCalendar`: twelve month groups of day cells for a year, each
    cell classified as weekend or workday and looked up in the holiday map.
    The JSX is reduced to the facts each cell displays. */
module CalendarGrid {
  import opened Dates
  import opened DateKey
  import opened DecimalText
  import opened HolidayIndex
  import opened OrderedMap

  /** What one rendered day shows: its weekend/workday class, whether it is
      highlighted as a holiday, the holiday name (the tooltip target, "" for a
      plain day) and whether the weekday abbreviation is shown above it. */
  datatype DayCell = DayCell(
    date: Date,
    isWeekend: bool,
    isHoliday: bool,
    holidayName: string,
    weekdayLabelShown: bool)

  datatype MonthGroup = MonthGroup(month0: int, monthName: string, days: seq<DayCell>)

  /** `format(date, "MMMM")` for month index 0..11. */
  const MonthNames: seq<string> := [
    "January", "February", "March", "April", "May", "June",
    "July", "August", "September", "October", "November", "December"]

  /** The cell rendered for a date, given the holiday map. */
  function CellFor(d: Date, holidays: map<string, PublicHoliday>): DayCell
    requires ValidDate(d)
  {
    var today := Key(d);
    var isHoliday := today in holidays;
    DayCell(d, IsWeekend(d), isHoliday, if isHoliday then holidays[today].name else "", d.day <= 7)
  }

  /** The days of month `m0` of year `y`, 1 .. length of the month, ascending. */
  ghost predicate IsMonthOfDays(y: int, m0: int, holidays: map<string, PublicHoliday>, days: seq<DayCell>)
    requires 0 <= m0 < 12
  {
    && |days| == DaysInMonth(y, m0)
    && forall i :: 0 <= i < |days| ==> days[i] == CellFor(Date(y, m0, i + 1), holidays)
  }

  /** The grid for a year: the twelve months in order, each named and holding
      exactly its own days. */
  ghost predicate IsCalendar(year: int, holidays: map<string, PublicHoliday>, months: seq<MonthGroup>)
  {
    && |months| == 12
    && forall m :: 0 <= m < 12 ==>
         && months[m].month0 == m
         && months[m].monthName == MonthNames[m]
         && IsMonthOfDays(HostYear(year), m, holidays, months[m].days)
  }

  /** The inner loop of `generateCalendar`: day numbers 1..31 are tried in
      turn and the first one whose date rolls into another month ends it. */
  method MonthDays(year: int, month: int, holidays: map<string, PublicHoliday>) returns (days: seq<DayCell>)
    requires 0 <= month < 12
    ensures IsMonthOfDays(HostYear(year), month, holidays, days)
  {
    ghost var length := DaysInMonth(HostYear(year), month);
    days := [];
    var day := 1;
    while day <= 31
      invariant 1 <= day <= 32
      invariant day - 1 <= length
      invariant |days| == day - 1
      invariant forall i :: 0 <= i < |days| ==> days[i] == CellFor(Date(HostYear(year), month, i + 1), holidays)
    {
      var currentDate := NewDate(year, month, day);
      NewDateMonth(year, month, day);
      if currentDate.month0 != month {
        break;
      }
      days := days + [CellFor(currentDate, holidays)];
      day := day + 1;
    }
  }

  /** The outer loop of `generateCalendar`: months 0..11, each with its name
      and its days. */
  method GenerateCalendar(year: int, holidays: map<string, PublicHoliday>) returns (months: seq<MonthGroup>)
    ensures IsCalendar(year, holidays, months)
  {
    months := [];
    var month := 0;
    while month < 12
      invariant 0 <= month <= 12
      invariant |months| == month
      invariant forall m :: 0 <= m < month ==>
        && months[m].month0 == m
        && months[m].monthName == MonthNames[m]
        && IsMonthOfDays(HostYear(year), m, holidays, months[m].days)
    {
      var first := NewDate(year, month, 1);
      NewDateMonth(year, month, 1);
      var monthName := MonthNames[first.month0];
      var days := MonthDays(year, month, holidays);
      months := months + [MonthGroup(month, monthName, days)];
      month := month + 1;
    }
  }

  /** Each cell's weekend class is Saturday or Sunday. */
  lemma WeekendRule(d: Date, holidays: map<string, PublicHoliday>)
    requires ValidDate(d)
    ensures CellFor(d, holidays).isWeekend <==> DayOfWeek(d) == 0 || DayOfWeek(d) == 6
  {
  }

  /** No rollover: every cell of a month group is a real day of that month
      of the displayed year, numbered by its position. */
  lemma NoRollover(year: int, holidays: map<string, PublicHoliday>, months: seq<MonthGroup>, m: int, i: int)
    requires IsCalendar(year, holidays, months)
    requires 0 <= m < 12 && 0 <= i < |months[m].days|
    ensures months[m].days[i].date == Date(HostYear(year), m, i + 1)
    ensures months[m].days[i].date.month0 == months[m].month0
    ensures ValidDate(months[m].days[i].date)
  {
  }

  /** Month lengths as the grid shows them: February has 29 days in a leap
      year and 28 otherwise, April, June, September and November 30, the
      other months 31. */
  lemma MonthLengths(year: int, holidays: map<string, PublicHoliday>, months: seq<MonthGroup>)
    requires IsCalendar(year, holidays, months)
    ensures |months[1].days| == if IsLeapYear(HostYear(year)) then 29 else 28
    ensures forall m :: m in {3, 5, 8, 10} ==> |months[m].days| == 30
    ensures forall m :: m in {0, 2, 4, 6, 7, 9, 11} ==> |months[m].days| == 31
  {
  }

  /** Holiday marking, end to end: a cell of the grid built from the map of a
      holiday list is a holiday exactly when some record names that very
      date, and then it shows the name of the last record naming it. */
  lemma {:induction false} HolidayMarking(hs: seq<PublicHoliday>, d: Date)
    requires WellDated(hs) && ValidDate(d)
    ensures CellFor(d, Index(hs)).isHoliday <==>
      exists i :: 0 <= i < |hs| && ExtractDate(hs[i].date) == d
    ensures CellFor(d, Index(hs)).isHoliday ==>
      exists i :: IsLastWithKey(hs, i, Key(d)) && ExtractDate(hs[i].date) == d &&
        CellFor(d, Index(hs)).holidayName == hs[i].name
    ensures !CellFor(d, Index(hs)).isHoliday ==> CellFor(d, Index(hs)).holidayName == ""
  {
    var k := Key(d);
    var ks := Keys(hs);
    SetAllKeys(ks, hs);
    if k in Index(hs) {
      SetAllValues(ks, hs, k);
      var i :| LastSetAt(ks, i, k) && Index(hs)[k] == hs[i];
      KeyInjective(ExtractDate(hs[i].date), d);
      assert IsLastWithKey(hs, i, k);
    } else {
      forall i | 0 <= i < |hs|
        ensures ExtractDate(hs[i].date) != d
      {
        assert ks[i] in Index(hs);
      }
    }
  }

  /** "2024-12-25" is read as 25 December 2024. */
  lemma ChristmasDate()
    ensures IsDateText("2024-12-25") && ExtractDate("2024-12-25") == Date(2024, 11, 25)
  {
    assert "2024-12-25" == "2024" + "-" + "12" + "-" + "25";
    assert "2024" == "" + ['2'] + ['0'] + ['2'] + ['4'];
    ValueAppend("", '2'); ValueAppend("2", '0'); ValueAppend("20", '2'); ValueAppend("202", '4');
    assert "12" == "" + ['1'] + ['2'];
    ValueAppend("", '1'); ValueAppend("1", '2');
    assert "25" == "" + ['2'] + ['5'];
    ValueAppend("2", '5');
    ExtractDateExact("2024", "12", "25");
  }

  /** December 2024 with the single record {"2024-12-25", "Christmas"}: the
      25th is the one holiday of the month and shows its name. */
  lemma ChristmasExample(hs: seq<PublicHoliday>, months: seq<MonthGroup>)
    requires hs == [PublicHoliday("2024-12-25", "Christmas")] && WellDated(hs)
    requires IsCalendar(2024, Index(hs), months)
    ensures |months[11].days| == 31
    ensures months[11].days[24].isHoliday && months[11].days[24].holidayName == "Christmas"
    ensures forall i :: 0 <= i < 31 && i != 24 ==> !months[11].days[i].isHoliday
  {
    ChristmasDate();
    HolidayMarking(hs, Date(2024, 11, 25));
    forall i | 0 <= i < 31 && i != 24
      ensures !months[11].days[i].isHoliday
    {
      HolidayMarking(hs, Date(2024, 11, i + 1));
    }
  }
}
