/** The age-of-majority rule: a contact may be created only when the whole
    number of years between its birth date and today is at least 18. Dates
    are calendar triples; the current date is a parameter. */
module Majority {

  datatype Date = Date(year: int, month: int, day: int)

  const AgeOfMajority: int := 18

  /** `a` is strictly earlier than `b` in calendar order. */
  predicate Before(a: Date, b: Date)
  {
    a.year < b.year
    || (a.year == b.year && a.month < b.month)
    || (a.year == b.year && a.month == b.month && a.day < b.day)
  }

  predicate OnOrBefore(a: Date, b: Date)
  {
    a == b || Before(a, b)
  }

  /** The month and day of `a` come before those of `b`, whatever the years. */
  predicate EarlierInYear(a: Date, b: Date)
  {
    a.month < b.month || (a.month == b.month && a.day < b.day)
  }

  /** The same calendar day `n` years earlier (a negative `n` means later). */
  function YearsBefore(d: Date, n: int): Date
  {
    Date(d.year - n, d.month, d.day)
  }

  /** The number of whole years from `from` to `to`, truncated toward zero,
      and so negative when `to` is earlier: `moment(to).diff(from, 'years')`. */
  function WholeYears(from: Date, to: Date): (r: int)
    ensures OnOrBefore(from, to) ==>
      r >= 0 && OnOrBefore(from, YearsBefore(to, r)) && Before(YearsBefore(to, r + 1), from)
    ensures Before(to, from) ==>
      r <= 0 && OnOrBefore(to, YearsBefore(from, -r)) && Before(YearsBefore(from, -r + 1), to)
  {
    if OnOrBefore(from, to) then
      to.year - from.year - (if EarlierInYear(to, from) then 1 else 0)
    else
      -(from.year - to.year - (if EarlierInYear(from, to) then 1 else 0))
  }

  /** `verificarSeMaiorIdade`: an adult is someone born on or before the same
      calendar day eighteen years ago. */
  predicate IsAdult(dob: Date, today: Date)
    ensures IsAdult(dob, today) <==> OnOrBefore(dob, YearsBefore(today, AgeOfMajority))
  {
    WholeYears(dob, today) >= AgeOfMajority
  }

  predicate IsLeapYear(y: int)
  {
    y % 4 == 0 && (y % 100 != 0 || y % 400 == 0)
  }

  function DaysInMonth(y: int, m: int): int
    requires 1 <= m <= 12
  {
    if m == 2 then (if IsLeapYear(y) then 29 else 28)
    else if m in {4, 6, 9, 11} then 30
    else 31
  }

  predicate ValidDate(d: Date)
  {
    1 <= d.month <= 12 && 1 <= d.day <= DaysInMonth(d.year, d.month)
  }

  /** The calendar day after `d`: no valid date lies strictly between them. */
  function NextDay(d: Date): (r: Date)
    requires ValidDate(d)
    ensures ValidDate(r) && Before(d, r)
    ensures forall e :: ValidDate(e) && Before(d, e) ==> OnOrBefore(r, e)
  {
    if d.day < DaysInMonth(d.year, d.month) then Date(d.year, d.month, d.day + 1)
    else if d.month < 12 then Date(d.year, d.month + 1, 1)
    else Date(d.year + 1, 1, 1)
  }

  /** Someone who turns eighteen today is an adult. */
  lemma EighteenTodayIsAdult(today: Date)
    ensures IsAdult(YearsBefore(today, AgeOfMajority), today)
  {
  }

  /** Someone born one day after that date is not. */
  lemma OneDayShortIsMinor(today: Date)
    requires ValidDate(YearsBefore(today, AgeOfMajority))
    ensures !IsAdult(NextDay(YearsBefore(today, AgeOfMajority)), today)
  {
  }

  /** Someone who turns seventeen today is a minor. */
  lemma SeventeenTodayIsMinor(today: Date)
    ensures !IsAdult(YearsBefore(today, AgeOfMajority - 1), today)
  {
  }

  /** An adult stays an adult: an earlier birth date, or a later today, keeps
      the rule satisfied. */
  lemma AdulthoodIsMonotone(dob: Date, dob': Date, today: Date, today': Date)
    requires IsAdult(dob, today)
    requires OnOrBefore(dob', dob) && OnOrBefore(today, today')
    ensures IsAdult(dob', today')
  {
  }

}
