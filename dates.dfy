/** Calendar dates as java.time.LocalDate treats them: proleptic Gregorian
    (year, month, day) triples ordered lexicographically. */
module Dates {

  datatype Date = Date(year: int, month: int, day: int)

  predicate IsLeap(y: int)
  {
    y % 4 == 0 && (y % 100 != 0 || y % 400 == 0)
  }

  function DaysInMonth(y: int, m: int): (n: int)
    requires 1 <= m <= 12
    ensures 28 <= n <= 31
    ensures m == 2 ==> (n == 29 <==> IsLeap(y))
    ensures m == 4 || m == 6 || m == 9 || m == 11 ==> n == 30
    ensures m != 2 && m != 4 && m != 6 && m != 9 && m != 11 ==> n == 31
  {
    if m == 2 then (if IsLeap(y) then 29 else 28)
    else if m == 4 || m == 6 || m == 9 || m == 11 then 30
    else 31
  }

  predicate ValidDate(d: Date)
  {
    1 <= d.month <= 12 && 1 <= d.day <= DaysInMonth(d.year, d.month)
  }

  /** LocalDate.isBefore: strictly earlier in (year, month, day) order. */
  predicate IsBefore(a: Date, b: Date)
  {
    a.year < b.year
    || (a.year == b.year && a.month < b.month)
    || (a.year == b.year && a.month == b.month && a.day < b.day)
  }

  /** LocalDate.isAfter. */
  predicate IsAfter(a: Date, b: Date)
  {
    IsBefore(b, a)
  }

  /** LocalDate.minusYears: the same month and day `n` years earlier, where a
      29 February that lands in a common year becomes 28 February. */
  function MinusYears(d: Date, n: int): (r: Date)
    requires ValidDate(d)
    ensures ValidDate(r)
    ensures r.year == d.year - n && r.month == d.month
    ensures r.day == d.day || (d.month == 2 && d.day == 29 && r.day == 28 && !IsLeap(r.year))
  {
    var y := d.year - n;
    Date(y, d.month, if d.day > DaysInMonth(y, d.month) then DaysInMonth(y, d.month) else d.day)
  }

  /** LocalDate.plusDays(1). */
  function NextDay(d: Date): (r: Date)
    requires ValidDate(d)
    ensures ValidDate(r)
  {
    if d.day < DaysInMonth(d.year, d.month) then Date(d.year, d.month, d.day + 1)
    else if d.month < 12 then Date(d.year, d.month + 1, 1)
    else Date(d.year + 1, 1, 1)
  }

  /** LocalDate.minusDays(1). */
  function PrevDay(d: Date): (r: Date)
    requires ValidDate(d)
    ensures ValidDate(r)
  {
    if d.day > 1 then Date(d.year, d.month, d.day - 1)
    else if d.month > 1 then Date(d.year, d.month - 1, DaysInMonth(d.year, d.month - 1))
    else Date(d.year - 1, 12, 31)
  }

  /** The day after `d` is the first date that comes after it: nothing lies
      strictly between the two. */
  lemma NextDayIsSuccessor(d: Date, x: Date)
    requires ValidDate(d) && ValidDate(x)
    ensures IsBefore(d, NextDay(d))
    ensures IsBefore(d, x) <==> !IsBefore(x, NextDay(d))
  {
  }

  /** The day before `d` is the last date that comes before it. */
  lemma PrevDayIsPredecessor(d: Date, x: Date)
    requires ValidDate(d) && ValidDate(x)
    ensures IsBefore(PrevDay(d), d)
    ensures IsBefore(x, d) <==> !IsBefore(PrevDay(d), x)
  {
  }

  /** The order is a strict total order. */
  lemma IsBeforeTotal(a: Date, b: Date, c: Date)
    ensures !IsBefore(a, a)
    ensures IsBefore(a, b) && IsBefore(b, c) ==> IsBefore(a, c)
    ensures a == b || IsBefore(a, b) || IsBefore(b, a)
  {
  }
}
