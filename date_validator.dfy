/** DateValidator: a birth date passes when it is on or before the date that
    lies `age` years before today. `age` is the configured minimum age and
    `today` stands for LocalDate.now(). */
module DateValidator {
  import opened Common
  import opened Dates

  /** The latest birth date that still passes. */
  function Threshold(today: Date, age: int): Date
    requires ValidDate(today)
  {
    MinusYears(today, age)
  }

  /** On or before: `isBefore` or `isEqual`. */
  predicate OnOrBefore(a: Date, b: Date)
  {
    IsBefore(a, b) || a == b
  }

  /** Whole years lived between `birth` and `today`: the difference of the
      years, less one when this year's birthday is still to come. */
  function AgeInYears(birth: Date, today: Date): int
  {
    today.year - birth.year
    - (if today.month < birth.month || (today.month == birth.month && today.day < birth.day)
       then 1 else 0)
  }

  /** For real calendar dates, lying on or before the threshold means having
      completed at least `age` whole years today, 29 February birthdays
      included. */
  lemma ThresholdIffOldEnough(birth: Date, today: Date, age: int)
    requires ValidDate(birth) && ValidDate(today)
    ensures OnOrBefore(birth, Threshold(today, age)) <==> AgeInYears(birth, today) >= age
  {
    var limit := Threshold(today, age);
    if limit.day != today.day {
      assert birth.year == limit.year && birth.month == 2 ==> birth.day <= 28;
    }
  }

  /** DateValidator.isValid: null is rejected, and a real calendar date passes
      exactly when its holder is at least `age` whole years old today. */
  predicate IsValid(date: Option<Date>, today: Date, age: int): (b: bool)
    requires ValidDate(today)
    ensures b ==> date.Some?
    ensures date.Some? && ValidDate(date.value) ==> (b <==> AgeInYears(date.value, today) >= age)
  {
    if date.None? then false
    else if ValidDate(date.value) then
      ThresholdIffOldEnough(date.value, today, age);
      OnOrBefore(date.value, Threshold(today, age))
    else OnOrBefore(date.value, Threshold(today, age))
  }

  /** Null is rejected. */
  lemma NullRejected(today: Date, age: int)
    requires ValidDate(today)
    ensures !IsValid(None, today, age)
  {
  }

  /** The threshold itself and the day before it pass; the day after it does
      not. */
  lemma ThresholdBoundary(today: Date, age: int)
    requires ValidDate(today)
    ensures IsValid(Some(Threshold(today, age)), today, age)
    ensures IsValid(Some(PrevDay(Threshold(today, age))), today, age)
    ensures !IsValid(Some(NextDay(Threshold(today, age))), today, age)
  {
    var limit := Threshold(today, age);
    PrevDayIsPredecessor(limit, limit);
    NextDayIsSuccessor(limit, limit);
  }

  /** The cut-off moves with the configured age: the date exactly `age` years
      ago passes under `age` and fails under `age + 1`. */
  lemma ThresholdFollowsAge(today: Date, age: int)
    requires ValidDate(today)
    ensures IsValid(Some(Threshold(today, age)), today, age)
    ensures !IsValid(Some(Threshold(today, age)), today, age + 1)
  {
  }
}
