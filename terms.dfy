/** The academic calendar: which season a calendar date falls in, and a term's display name. */
module Terms {
  import opened Text
  import opened Model

  datatype CurrentTermInfo = CurrentTermInfo(term: TermType, year: int, name: string)

  /** A day of a month as a `Date` yields it (1-based month, day of month). */
  predicate ValidDate(month: int, day: int) {
    1 <= month <= 12 && 1 <= day <= 31
  }

  /** The published calendar, as (month, day) ranges; `md` is `100 * month + day`. */
  predicate InFall(md: int) { 820 <= md <= 1215 }
  predicate InWinter(md: int) { 1216 <= md <= 1231 || 101 <= md <= 115 }
  predicate InSpring(md: int) { 116 <= md <= 505 }
  predicate InSummer(md: int) { 506 <= md <= 819 }

  /** The season the published calendar gives to a date. */
  ghost predicate CalendarSeason(month: int, day: int, t: TermType) {
    var md := 100 * month + day;
    match t
    case Fall => InFall(md)
    case Winter => InWinter(md)
    case Spring => InSpring(md)
    case Summer => InSummer(md)
  }

  /** `getTermDisplayName(term, year)`: the code, a space, and the year. */
  function TermDisplayName(t: TermType, year: int): string {
    TermCode(t) + " " + IntToString(year)
  }

  function Named(t: TermType, year: int): CurrentTermInfo {
    CurrentTermInfo(t, year, TermDisplayName(t, year))
  }

  /** `getCurrentTerm(date)` on the date's month (1-12), day of month and full year. The
      chain of tests is kept as written, including the unreachable fallback named "Fall". */
  function GetCurrentTerm(month: int, day: int, year: int): (r: CurrentTermInfo)
    ensures r.year == year
    ensures ValidDate(month, day) ==> CalendarSeason(month, day, r.term)
    ensures ValidDate(month, day) ==> r.name == TermDisplayName(r.term, year)
  {
    if month == 8 && day >= 20 then Named(Fall, year)
    else if 9 <= month <= 11 then Named(Fall, year)
    else if month == 12 && day < 16 then Named(Fall, year)
    else if month == 12 && day >= 16 then Named(Winter, year)
    else if month == 1 && day <= 15 then Named(Winter, year)
    else if month == 1 && day >= 16 then Named(Spring, year)
    else if 2 <= month <= 4 then Named(Spring, year)
    else if month == 5 && day <= 5 then Named(Spring, year)
    else if month == 5 && day >= 6 then Named(Summer, year)
    else if 6 <= month <= 7 then Named(Summer, year)
    else if month == 8 && day < 20 then Named(Summer, year)
    else CurrentTermInfo(Fall, year, "Fall " + IntToString(year))
  }

  /** The four ranges partition the calendar: every valid date is in exactly one season. */
  lemma CalendarPartition(month: int, day: int)
    requires ValidDate(month, day)
    ensures var md := 100 * month + day;
            (if InFall(md) then 1 else 0) + (if InWinter(md) then 1 else 0)
            + (if InSpring(md) then 1 else 0) + (if InSummer(md) then 1 else 0) == 1
  {
  }

  /** Every valid date gets exactly the season of the calendar, and the fallback is never taken. */
  lemma CurrentTermIsCalendarSeason(month: int, day: int, year: int, t: TermType)
    requires ValidDate(month, day)
    ensures GetCurrentTerm(month, day, year).term == t <==> CalendarSeason(month, day, t)
  {
    CalendarPartition(month, day);
  }

  /** A January date up to the 15th is the winter term of that same calendar year. */
  lemma JanuaryWinterKeepsYear(day: int, year: int)
    requires 1 <= day <= 15
    ensures GetCurrentTerm(1, day, year) == CurrentTermInfo(Winter, year, TermDisplayName(Winter, year))
  {
  }

  /** Outside the valid dates the fallback names the term "Fall", not "FALL". */
  lemma FallbackName(year: int)
    ensures GetCurrentTerm(13, 1, year).name == "Fall " + IntToString(year)
    ensures GetCurrentTerm(13, 1, year).name != TermDisplayName(Fall, year)
  {
    assert GetCurrentTerm(13, 1, year).name[1] == 'a';
  }

  /** Display names determine the term: different (season, year) pairs get different names. */
  lemma {:induction false} TermDisplayNameInjective(t1: TermType, y1: int, t2: TermType, y2: int)
    requires TermDisplayName(t1, y1) == TermDisplayName(t2, y2)
    ensures t1 == t2 && y1 == y2
  {
    var n := TermDisplayName(t1, y1);
    // The first two letters tell the four codes apart.
    assert n[0] == TermCode(t1)[0] && n[0] == TermCode(t2)[0];
    assert n[1] == TermCode(t1)[1] && n[1] == TermCode(t2)[1];
    assert t1 == t2;
    assert IntToString(y1) == n[|TermCode(t1)| + 1..] == IntToString(y2);
    IntToStringInjective(y1, y2);
  }
}
