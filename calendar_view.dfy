/** The month calendar: a seven-column grid of blanks and days, each day
    looked up in the month's entries and coloured by its score band. */
module CalendarView {
  import opened Wrappers
  import opened DateUtils
  import opened Diary
  import Decimal

  // ----- Grid layout -----

  datatype Cell = Blank(index: int) | Day(day: int)

  /** `blanks` then `days`: `firstDay` empty cells, then the days of the
      month in increasing order. */
  function Grid(year: int, month: int): (g: seq<Cell>)
    ensures var first, n := GetFirstDayOfMonth(year, month), GetDaysInMonth(year, month);
      && |g| == first + n
      && (forall i :: 0 <= i < first ==> g[i].Blank?)
      && (forall i :: first <= i < |g| ==> g[i] == Day(i - first + 1))
  {
    var blanks := seq(GetFirstDayOfMonth(year, month), i => i);
    var days := seq(GetDaysInMonth(year, month), i => i + 1);
    seq(|blanks|, i requires 0 <= i < |blanks| => Blank(blanks[i]))
      + seq(|days|, i requires 0 <= i < |days| => Day(days[i]))
  }

  /** Every day of the month sits in the column of its weekday. */
  lemma GridColumnIsWeekday(year: int, month: int, day: int)
    requires 1 <= day <= GetDaysInMonth(year, month)
    ensures var g, pos := Grid(year, month), GetFirstDayOfMonth(year, month) + day - 1;
      && g[pos] == Day(day)
      && pos % 7 == WeekDay(MakeDay(ConstructorYear(year), month, day))
  {
    var first := MakeDay(ConstructorYear(year), month, 1);
    ModAdd(first + 4, day - 1);
  }

  // ----- Looking up the entry of a day -----

  /** The key of a day: year, then month number and day padded to two digits. */
  function DateKey(year: int, month: int, day: int): string {
    Decimal.Show(year) + "-" + Decimal.TwoDigits(month + 1) + "-" + Decimal.TwoDigits(day)
  }

  /** The key is the text `formatDate(date, '-')` gives, so an entry saved
      under that text is found on its day. */
  lemma DateKeyIsFormatDate(year: int, month: int, day: int)
    ensures DateKey(year, month, day) == FormatDate(CivilDate(year, month, day), "-")
  {
  }

  /** Different days of one month have different keys. */
  lemma DateKeyInjective(year: int, month: int, d1: int, d2: int)
    requires 0 <= month < 12 && 1 <= d1 <= 31 && 1 <= d2 <= 31
    requires DateKey(year, month, d1) == DateKey(year, month, d2)
    ensures d1 == d2
  {
    FormatDateInjective(CivilDate(year, month, d1), CivilDate(year, month, d2), "-");
  }

  /** `data.find(d => d.date === key)`: the first entry with that date. */
  function FindByDate(data: seq<DiaryEntry>, key: string): (r: Option<DiaryEntry>)
    ensures r.None? <==> forall i :: 0 <= i < |data| ==> data[i].date != key
    ensures r.Some? ==> exists i :: 0 <= i < |data| && data[i] == r.value && data[i].date == key
                                    && forall j :: 0 <= j < i ==> data[j].date != key
  {
    if data == [] then None
    else if data[0].date == key then Some(data[0])
    else
      var r := FindByDate(data[1..], key);
      assert forall i :: 1 <= i < |data| ==> data[i] == data[1..][i - 1];
      r
  }

  /** `getEntryForDay`. */
  function GetEntryForDay(data: seq<DiaryEntry>, year: int, month: int, day: int): Option<DiaryEntry> {
    FindByDate(data, DateKey(year, month, day))
  }

  // ----- Colours -----

  /** The four score bands, from the lowest scores up. */
  datatype Band = RedBand | YellowBand | GreenBand | BlueBand {
    function Rank(): int {
      match this
      case RedBand => 0
      case YellowBand => 1
      case GreenBand => 2
      case BlueBand => 3
    }
  }

  /** The palette tokens the calendar uses, as opaque names. */
  datatype Colour = Red100 | Yellow100 | Green100 | Blue100
                  | Red700 | Yellow700 | Green700 | Blue700
                  | Grey800 | Transparent

  /** The band a colour token belongs to, if any. */
  function BandOf(c: Colour): Option<Band> {
    match c
    case Red100 | Red700 => Some(RedBand)
    case Yellow100 | Yellow700 => Some(YellowBand)
    case Green100 | Green700 => Some(GreenBand)
    case Blue100 | Blue700 => Some(BlueBand)
    case Grey800 | Transparent => None
  }

  /** The two shades of a band: 100 for backgrounds, 700 for text. */
  datatype Shade = Light | Dark

  /** The shade of a band colour token, if it is one. */
  function ShadeOf(c: Colour): Option<Shade> {
    match c
    case Red100 | Yellow100 | Green100 | Blue100 => Some(Light)
    case Red700 | Yellow700 | Green700 | Blue700 => Some(Dark)
    case Grey800 | Transparent => None
  }

  /** A band and a shade name exactly one colour token. */
  lemma BandAndShadeDetermineColour(c1: Colour, c2: Colour)
    requires BandOf(c1).Some? && BandOf(c1) == BandOf(c2) && ShadeOf(c1) == ShadeOf(c2)
    ensures c1 == c2
  {
  }

  /** The band of a score: up to 30, 31 to 50, 51 to 70, above 70. */
  function ScoreBand(score: int): (b: Band)
    ensures b == RedBand <==> score <= 30
    ensures b == YellowBand <==> 30 < score <= 50
    ensures b == GreenBand <==> 50 < score <= 70
    ensures b == BlueBand <==> 70 < score
  {
    if score <= 30 then RedBand
    else if score <= 50 then YellowBand
    else if score <= 70 then GreenBand
    else BlueBand
  }

  /** A higher score never falls in a lower band. */
  lemma ScoreBandMonotone(s1: int, s2: int)
    requires s1 <= s2
    ensures ScoreBand(s1).Rank() <= ScoreBand(s2).Rank()
  {
  }

  /** `getBackgroundColor`. */
  function BackgroundColor(score: int): Colour {
    if score <= 30 then Red100
    else if score <= 50 then Yellow100
    else if score <= 70 then Green100
    else Blue100
  }

  /** `getTextColor`. */
  function TextColor(score: int): Colour {
    if score <= 30 then Red700
    else if score <= 50 then Yellow700
    else if score <= 70 then Green700
    else Blue700
  }

  /** Background and text of a scored day come from the score's band: the
      background in its light shade, the text in its dark shade. */
  lemma ColoursShareBand(score: int)
    ensures BandOf(BackgroundColor(score)) == Some(ScoreBand(score))
    ensures BandOf(TextColor(score)) == Some(ScoreBand(score))
    ensures ShadeOf(BackgroundColor(score)) == Some(Light)
    ensures ShadeOf(TextColor(score)) == Some(Dark)
  {
  }

  // ----- Day cells -----

  /** What one day cell shows and what clicking it passes on. */
  datatype DayView = DayView(day: int, dateStr: string, background: Colour, text: Colour,
                             bold: bool, selected: bool)

  function RenderDay(data: seq<DiaryEntry>, year: int, month: int, selectedDate: Option<string>,
                     day: int): (v: DayView)
    ensures v.day == day && v.dateStr == DateKey(year, month, day)
    ensures v.selected <==> selectedDate == Some(DateKey(year, month, day))
    ensures GetEntryForDay(data, year, month, day).None? ==>
      v.background == Transparent && v.text == Grey800 && !v.bold
    ensures GetEntryForDay(data, year, month, day).Some? ==>
      var b := Some(ScoreBand(GetEntryForDay(data, year, month, day).value.score));
      && BandOf(v.background) == b && ShadeOf(v.background) == Some(Light)
      && BandOf(v.text) == b && ShadeOf(v.text) == Some(Dark) && v.bold
  {
    var entry := GetEntryForDay(data, year, month, day);
    var dateStr := DateKey(year, month, day);
    var bg := if entry.Some? then BackgroundColor(entry.value.score) else Transparent;
    var textColour := if entry.Some? then TextColor(entry.value.score) else Grey800;
    ColoursShareBand(if entry.Some? then entry.value.score else 0);
    DayView(day, dateStr, bg, textColour, entry.Some?, selectedDate == Some(dateStr))
  }

  /** The day cells of a month, day 1 first. */
  function RenderDays(data: seq<DiaryEntry>, year: int, month: int, selectedDate: Option<string>): seq<DayView> {
    seq(GetDaysInMonth(year, month), i => RenderDay(data, year, month, selectedDate, i + 1))
  }

  lemma RenderDaysAt(data: seq<DiaryEntry>, year: int, month: int, selectedDate: Option<string>, i: int)
    requires 0 <= i < |RenderDays(data, year, month, selectedDate)|
    ensures 1 <= i + 1 <= 31
    ensures RenderDays(data, year, month, selectedDate)[i].selected <==>
      selectedDate == Some(DateKey(year, month, i + 1))
  {
    assert RenderDays(data, year, month, selectedDate)[i] == RenderDay(data, year, month, selectedDate, i + 1);
  }

  /** At most one day cell of a month is selected. */
  lemma AtMostOneSelected(data: seq<DiaryEntry>, year: int, month: int, selectedDate: Option<string>,
                          i: int, j: int)
    requires 0 <= month < 12
    requires var days := RenderDays(data, year, month, selectedDate);
      0 <= i < |days| && 0 <= j < |days| && days[i].selected && days[j].selected
    ensures i == j
  {
    RenderDaysAt(data, year, month, selectedDate, i);
    RenderDaysAt(data, year, month, selectedDate, j);
    DateKeyInjective(year, month, i + 1, j + 1);
  }
}
