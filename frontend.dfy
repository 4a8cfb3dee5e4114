/**
 * The Mini App page script: the week strip and the month grid of the
 * calendar, their navigation, the "my plants" list, the event text and
 * the +/- counters. Dates are day numbers (see `CivilCalendar`); the DOM,
 * `fetch`, `localStorage`, `prompt` and `FileReader` are replaced by the
 * values they deliver.
 */
module FrontEnd {
  import opened Wrappers
  import opened CivilCalendar

  const DaysOfWeek: seq<string> := ["ПН", "ВТ", "СР", "ЧТ", "ПТ", "СБ", "ВС"]

  const MonthNames: seq<string> := [
    "Январь", "Февраль", "Март", "Апрель", "Май", "Июнь",
    "Июль", "Август", "Сентябрь", "Октябрь", "Ноябрь", "Декабрь"
  ]

  const PlaceholderPhoto: string := "icons/placeholder.png"

  // ---------------------------------------------------------------- days and weeks

  /**
   * `isSameDay`: same day of month, month and year. Since a day number has
   * one calendar date, that is exactly equality.
   */
  predicate IsSameDay(d1: int, d2: int)
    ensures IsSameDay(d1, d2) <==> d1 == d2
  {
    CivilFromDaysInverse(d1);
    CivilFromDaysInverse(d2);
    GetDate(d1) == GetDate(d2) && GetMonth(d1) == GetMonth(d2) && GetFullYear(d1) == GetFullYear(d2)
  }

  /** `(getDay() + 6) % 7`: the weekday counted from Monday, the column of the Russian week. */
  function MondayIndex(d: int): (i: int)
    ensures 0 <= i < 7
    ensures GetDay(d) == (i + 1) % 7
    ensures i == 0 <==> GetDay(d) == 1
    ensures i == 6 <==> GetDay(d) == 0
  {
    (GetDay(d) + 6) % 7
  }

  /** The day after has the next Monday-based index, wrapping from Sunday to Monday. */
  lemma MondayIndexNext(d: int)
    ensures MondayIndex(d + 1) == (MondayIndex(d) + 1) % 7
  {
  }

  lemma ModSucc(x: int)
    ensures (x % 7 + 1) % 7 == (x + 1) % 7
  {
  }

  /** `k` days later the Monday-based index has moved on by `k`, modulo 7. */
  lemma {:induction false} MondayIndexShift(d: int, k: nat)
    ensures MondayIndex(d + k) == (MondayIndex(d) + k) % 7
  {
    if k > 0 {
      MondayIndexShift(d, k - 1);
      MondayIndexNext(d + k - 1);
      ModSucc(MondayIndex(d) + k - 1);
    }
  }

  /** The day `MondayIndex(today)` days before `today` is the Monday of its week. */
  lemma MondayOfWeek(today: int, s: int)
    requires s == today - MondayIndex(today)
    ensures GetDay(s) == 1
    ensures today - 6 <= s <= today
  {
    var k := MondayIndex(today);
    MondayIndexShift(s, k);
  }

  /** Lines 39-40: the week strip starts on the Monday of the current week. */
  function WeekStart(today: int): (s: int)
    ensures GetDay(s) == 1
    ensures today - 6 <= s <= today
    ensures today - s == MondayIndex(today)
  {
    var s := SetDate(today, GetDate(today) - MondayIndex(today));
    MondayOfWeek(today, s);
    s
  }

  // ---------------------------------------------------------------- rendering

  datatype WeekCell = WeekCell(weekday: string, date: int, isToday: bool, hasTasks: bool)

  /**
   * `renderWeek`: seven consecutive days from `start`, each labelled with its
   * weekday and day of month, marked when it is today and when the backend
   * has tasks for it (`hasTasks` stands for the `fetch`).
   */
  method RenderWeek(start: int, today: int, hasTasks: int -> bool) returns (cells: seq<WeekCell>, monthName: string)
    ensures |cells| == 7
    ensures forall i :: 0 <= i < 7 ==>
      cells[i] == WeekCell(DaysOfWeek[MondayIndex(start + i)], GetDate(start + i), start + i == today, hasTasks(start + i))
    ensures GetDay(start) == 1 ==> forall i :: 0 <= i < 7 ==> cells[i].weekday == DaysOfWeek[i]
    ensures monthName == MonthNames[GetMonth(start)]
  {
    cells := [];
    for i := 0 to 7
      invariant |cells| == i
      invariant forall j :: 0 <= j < i ==>
        cells[j] == WeekCell(DaysOfWeek[MondayIndex(start + j)], GetDate(start + j), start + j == today, hasTasks(start + j))
    {
      var date := SetDate(start, GetDate(start) + i);
      assert date == start + i;
      cells := cells + [WeekCell(DaysOfWeek[MondayIndex(date)], GetDate(date), IsSameDay(date, today), hasTasks(date))];
    }
    WeekLabelsFromMonday(start);
    monthName := MonthNames[GetMonth(start)];
  }

  /** From a Monday, the seven days of the week strip are labelled in order. */
  lemma WeekLabelsFromMonday(start: int)
    ensures GetDay(start) == 1 ==> forall i :: 0 <= i < 7 ==> DaysOfWeek[MondayIndex(start + i)] == DaysOfWeek[i]
  {
    if GetDay(start) == 1 {
      forall i | 0 <= i < 7 ensures DaysOfWeek[MondayIndex(start + i)] == DaysOfWeek[i] {
        MondayIndexShift(start, i);
      }
    }
  }

  datatype MonthCell = Blank | DayCell(day: int, isToday: bool, isSelected: bool)

  /** The leading blanks of the month grid: the Monday-based weekday of the 1st. */
  function LeadingBlanks(year: int, month: int): (n: int)
    ensures 0 <= n < 7
  {
    MondayIndex(NewDate(year, month, 1))
  }

  /** The cell of day `day`: marked exactly when `new Date(year, month, day)` is today or the selected day. */
  function MonthDayCell(year: int, month: int, day: int, today: int, selected: int): MonthCell
  {
    DayCell(day, today == NewDate(year, month, day), selected == NewDate(year, month, day))
  }

  /** Line 97: day 0 of the next month is the last day of this one, so its day of month is the month's length. */
  function DaysInMonth(year: int, month: int): (n: int)
    requires 0 <= month < 12
    ensures n == MonthLength(ConstructorYear(year), month)
  {
    LastDayOfMonth(year, month);
    GetDate(NewDate(year, month + 1, 0))
  }

  /**
   * `renderMonth`: blanks up to the weekday of the 1st, then one cell per
   * day of the month, labelled 1..daysInMonth, marked when it is today or
   * the selected day. Every day lands in the column of its weekday. The
   * dates are made with `new Date(year, month, day)`, so for a year 0..99
   * the grid is that month of 19xx.
   */
  method RenderMonth(date: int, today: int, selected: int) returns (cells: seq<MonthCell>, monthName: string)
    ensures var y, m := GetFullYear(date), GetMonth(date);
      && |cells| == LeadingBlanks(y, m) + MonthLength(ConstructorYear(y), m)
      && (forall i :: 0 <= i < LeadingBlanks(y, m) ==> cells[i] == Blank)
      && (forall i :: LeadingBlanks(y, m) <= i < |cells| ==>
            cells[i] == MonthDayCell(y, m, i - LeadingBlanks(y, m) + 1, today, selected))
      && monthName == MonthNames[m]
  {
    var year := GetFullYear(date);
    var month := GetMonth(date);
    cells := MonthGrid(year, month, today, selected);
    monthName := MonthNames[month];
  }

  /** Lines 95-115: the grid of month `month` of `year`, blanks first, then the days in order. */
  method MonthGrid(year: int, month: int, today: int, selected: int) returns (cells: seq<MonthCell>)
    requires 0 <= month < 12
    ensures |cells| == LeadingBlanks(year, month) + MonthLength(ConstructorYear(year), month)
    ensures forall i :: 0 <= i < LeadingBlanks(year, month) ==> cells[i] == Blank
    ensures forall i :: LeadingBlanks(year, month) <= i < |cells| ==>
      cells[i] == MonthDayCell(year, month, i - LeadingBlanks(year, month) + 1, today, selected)
  {
    var startDay := LeadingBlanks(year, month);
    var daysInMonth := DaysInMonth(year, month);
    cells := [];
    for i := 0 to startDay
      invariant |cells| == i
      invariant forall j :: 0 <= j < i ==> cells[j] == Blank
    {
      cells := cells + [Blank];
    }
    for day := 1 to daysInMonth + 1
      invariant |cells| == startDay + day - 1
      invariant forall j :: 0 <= j < startDay ==> cells[j] == Blank
      invariant forall i :: startDay <= i < |cells| ==> cells[i] == MonthDayCell(year, month, i - startDay + 1, today, selected)
    {
      var d := NewDate(year, month, day);
      var cell := DayCell(day, IsSameDay(d, today), IsSameDay(d, selected));
      assert cell == MonthDayCell(year, month, |cells| - startDay + 1, today, selected);
      cells := cells + [cell];
    }
  }

  /** The cell of day `k + 1` sits in the column of that day's weekday. */
  lemma GridColumns(year: int, month: int, k: nat)
    ensures (LeadingBlanks(year, month) + k) % 7 == MondayIndex(NewDate(year, month, k + 1))
  {
    MakeDayCarries(ConstructorYear(year), month, 1, k);
    MondayIndexShift(NewDate(year, month, 1), k);
  }

  // ---------------------------------------------------------------- month navigation

  /**
   * Lines 120 and 125 as written: `setMonth(getMonth() + delta)` keeps the
   * day of month, so a day the target month lacks carries over into the
   * month after it.
   */
  function ShiftMonthAsWritten(selected: int, delta: int): int
  {
    SetMonth(selected, GetMonth(selected) + delta)
  }

  /** Where the target month has the selected day, the code as written does what was meant. */
  lemma ShiftMonthAsWrittenAgrees(selected: int, delta: int)
    requires GetDate(selected) <= MonthLength(GetFullYear(selected) + (GetMonth(selected) + delta) / 12, (GetMonth(selected) + delta) % 12)
    ensures ShiftMonthAsWritten(selected, delta) == ShiftMonth(selected, delta)
  {
  }

  /** From 31 March, "previous month" as written lands on 2 or 3 March: the grid stays on March. */
  lemma PreviousMonthFromMarch31(y: int)
    ensures GetMonth(ShiftMonthAsWritten(MakeDay(y, 2, 31), -1)) == 2
    ensures GetFullYear(ShiftMonthAsWritten(MakeDay(y, 2, 31), -1)) == y
  {
    var n := MakeDay(y, 2, 31);
    MakeDayValid(y, 2, 31);
    MonthStep(y, 1);
    var back := 31 - MonthLength(y, 1);
    assert SetMonth(n, 1) == MakeDay(y, 2, back);
    MakeDayValid(y, 2, back);
  }

  /**
   * Month navigation as intended: the month moves by `delta` (carrying into
   * the year) and the day of month is kept when the target month has it,
   * clamped to the target month's last day otherwise.
   */
  function ShiftMonth(selected: int, delta: int): int
  {
    var t := GetMonth(selected) + delta;
    var y, m := GetFullYear(selected) + t / 12, t % 12;
    if GetDate(selected) <= MonthLength(y, m) then SetMonth(selected, t) else MakeDay(y, m, MonthLength(y, m))
  }

  /** The corrected shift reaches the target month and year and keeps the day, clamped to the month's length. */
  lemma ShiftMonthLands(selected: int, delta: int)
    ensures GetMonth(ShiftMonth(selected, delta)) == (GetMonth(selected) + delta) % 12
    ensures GetFullYear(ShiftMonth(selected, delta)) == GetFullYear(selected) + (GetMonth(selected) + delta) / 12
    ensures var y, m := GetFullYear(ShiftMonth(selected, delta)), GetMonth(ShiftMonth(selected, delta));
      GetDate(ShiftMonth(selected, delta)) == if GetDate(selected) <= MonthLength(y, m) then GetDate(selected) else MonthLength(y, m)
  {
    var t := GetMonth(selected) + delta;
    var y, m := GetFullYear(selected) + t / 12, t % 12;
    if GetDate(selected) <= MonthLength(y, m) {
      ShiftMonthKept(selected, delta, t, y, m);
    } else {
      ShiftMonthClamped(selected, delta, t, y, m);
    }
  }

  /** A day the target month has is kept. */
  lemma ShiftMonthKept(selected: int, delta: int, t: int, y: int, m: int)
    requires t == GetMonth(selected) + delta && y == GetFullYear(selected) + t / 12 && m == t % 12
    requires GetDate(selected) <= MonthLength(y, m)
    ensures GetFullYear(ShiftMonth(selected, delta)) == y && GetMonth(ShiftMonth(selected, delta)) == m
    ensures GetDate(ShiftMonth(selected, delta)) == GetDate(selected)
  {
    assert ShiftMonth(selected, delta) == SetMonth(selected, t);
    SetMonthLands(selected, t, y, m);
  }

  /** A day the target month lacks becomes its last day. */
  lemma ShiftMonthClamped(selected: int, delta: int, t: int, y: int, m: int)
    requires t == GetMonth(selected) + delta && y == GetFullYear(selected) + t / 12 && m == t % 12
    requires GetDate(selected) > MonthLength(y, m)
    ensures GetFullYear(ShiftMonth(selected, delta)) == y && GetMonth(ShiftMonth(selected, delta)) == m
    ensures GetDate(ShiftMonth(selected, delta)) == MonthLength(y, m)
  {
    var r := ShiftMonth(selected, delta);
    assert r == MakeDay(y, m, MonthLength(y, m));
    MakeDayParts(r, y, m, MonthLength(y, m));
  }

  /** Corrected navigation always reaches the neighbouring month, 31 March included. */
  lemma ShiftMonthReachesNeighbour(selected: int, delta: int)
    requires delta == -1 || delta == 1
    ensures GetMonth(ShiftMonth(selected, delta)) == (GetMonth(selected) + delta + 12) % 12
  {
    ShiftMonthLands(selected, delta);
    ModShift(GetMonth(selected) + delta);
  }

  /** Twelve months on is the same month of the year. */
  lemma ModShift(t: int)
    ensures t % 12 == (t + 12) % 12
  {
  }

  // ---------------------------------------------------------------- small handlers

  /** The text of a calendar event: `${type}: ${plant}`. */
  function EventText(eventType: string, plant: string): (r: string)
    ensures |r| == |eventType| + 2 + |plant|
    ensures r[..|eventType|] == eventType
    ensures r[|eventType|..|eventType| + 2] == ": "
    ensures r[|eventType| + 2..] == plant
  {
    eventType + ": " + plant
  }

  /** `changeValue`: the new value is `old + delta`, raised to 0 when that is negative. */
  function ChangedValue(value: int, delta: int): (r: int)
    ensures r >= 0 && r >= value + delta
    ensures r == 0 || r == value + delta
  {
    if value + delta > 0 then value + delta else 0
  }

  datatype Plant = Plant(name: string, photoUrl: string)

  /** The page's module-level state. */
  class Page {
    var currentStartDate: int
    var selectedDate: int
    var plants: seq<Plant>
    /** The numeric text of the +/- counters, by element id. */
    var counters: map<string, int>

    /** The week strip always starts on a Monday. */
    ghost predicate Valid()
      reads this
    {
      GetDay(currentStartDate) == 1
    }

    /** Script start-up: this week's Monday, today selected, no plants loaded. */
    constructor(now: int, counters: map<string, int>)
      ensures Valid()
      ensures currentStartDate == WeekStart(now) && selectedDate == now
      ensures plants == [] && this.counters == counters
    {
      currentStartDate := WeekStart(now);
      selectedDate := now;
      plants := [];
      this.counters := counters;
    }

    /** The "previous week" button: seven days back, still a Monday. */
    method PrevWeek()
      requires Valid()
      modifies this
      ensures Valid()
      ensures currentStartDate == old(currentStartDate) - 7
      ensures selectedDate == old(selectedDate) && plants == old(plants) && counters == old(counters)
    {
      currentStartDate := SetDate(currentStartDate, GetDate(currentStartDate) - 7);
      GetDayPeriodic(currentStartDate, 1);
    }

    /** The "next week" button: seven days on, still a Monday. */
    method NextWeek()
      requires Valid()
      modifies this
      ensures Valid()
      ensures currentStartDate == old(currentStartDate) + 7
      ensures selectedDate == old(selectedDate) && plants == old(plants) && counters == old(counters)
    {
      currentStartDate := SetDate(currentStartDate, GetDate(currentStartDate) + 7);
      GetDayPeriodic(old(currentStartDate), 1);
    }

    /** A click on a day of the month grid selects that day. */
    method SelectDate(d: int)
      modifies this
      ensures selectedDate == d
      ensures currentStartDate == old(currentStartDate) && plants == old(plants) && counters == old(counters)
    {
      selectedDate := d;
    }

    /** The "previous month" / "next month" buttons, with the day clamped (see `ShiftMonth`). */
    method ShiftSelectedMonth(delta: int)
      requires delta == -1 || delta == 1
      modifies this
      ensures selectedDate == ShiftMonth(old(selectedDate), delta)
      ensures GetMonth(selectedDate) == (GetMonth(old(selectedDate)) + delta + 12) % 12
      ensures currentStartDate == old(currentStartDate) && plants == old(plants) && counters == old(counters)
    {
      ShiftMonthReachesNeighbour(selectedDate, delta);
      selectedDate := ShiftMonth(selectedDate, delta);
    }

    /**
     * "Add by name": `name` is what `prompt` returned (`None` when cancelled).
     * A cancelled or empty answer changes nothing; otherwise exactly one
     * plant with the placeholder photo is appended.
     */
    method AddPlantByName(name: Option<string>)
      modifies this
      ensures name.None? || name.value == "" ==> plants == old(plants)
      ensures name.Some? && name.value != "" ==> plants == old(plants) + [Plant(name.value, PlaceholderPhoto)]
      ensures currentStartDate == old(currentStartDate) && selectedDate == old(selectedDate) && counters == old(counters)
    {
      if name.None? || name.value == "" {
        return;
      }
      plants := plants + [Plant(name.value, PlaceholderPhoto)];
    }

    /**
     * "Add by photo", once the file has been read: the photo is the data URL
     * the reader produced; the name is asked as for "add by name".
     */
    method AddPlantByPhoto(name: Option<string>, dataUrl: string)
      modifies this
      ensures name.None? || name.value == "" ==> plants == old(plants)
      ensures name.Some? && name.value != "" ==> plants == old(plants) + [Plant(name.value, dataUrl)]
      ensures currentStartDate == old(currentStartDate) && selectedDate == old(selectedDate) && counters == old(counters)
    {
      if name.None? || name.value == "" {
        return;
      }
      plants := plants + [Plant(name.value, dataUrl)];
    }

    /** `changeValue(id, delta)` on a counter the page has. */
    method ChangeValue(id: string, delta: int)
      requires id in counters
      modifies this
      ensures counters == old(counters)[id := ChangedValue(old(counters)[id], delta)]
      ensures counters[id] >= 0
      ensures currentStartDate == old(currentStartDate) && selectedDate == old(selectedDate) && plants == old(plants)
    {
      counters := counters[id := ChangedValue(counters[id], delta)];
    }
  }
}
