/** calculateAge: the checks on the two date inputs, the borrow decomposition
    of the elapsed time into years, months and days, the totals, and the
    next birthday counted from today. */
module AgeCalculator {
  import opened Calendar
  import opened DateText

  /** The age shown to the user. */
  datatype AgeResult = AgeResult(years: int, months: int, days: int, totalDays: int, totalMonths: int)

  /** The coming birthday and how many days remain until it. */
  datatype NextBirthday = NextBirthday(date: Date, daysRemaining: int)

  /** Everything one successful calculation produces. */
  datatype Report = Report(age: AgeResult, nextBirthday: NextBirthday)

  /** The refusals that the calculator reports to the user instead of a result. */
  datatype AgeError = MissingBirthDate | InvalidBirthDate | InvalidTargetDate | BirthAfterTarget

  datatype Result<T> = Ok(value: T) | Err(error: AgeError)

  /** Months fully elapsed from birth to target: the difference of the month
      indexes, less one while the target's day of the month has not reached
      the birth's. */
  function WholeMonths(birth: Date, target: Date): int {
    12 * (target.year - birth.year) + (target.month - birth.month)
    - (if target.day < birth.day then 1 else 0)
  }

  /** The reference breakdown: whole months split into years and months, the
      days counted within the month that ends at the target, and the exact
      day difference. */
  function Breakdown(birth: Date, target: Date): AgeResult
    requires ValidDate(birth) && ValidDate(target)
  {
    var total := WholeMonths(birth, target);
    AgeResult(
      total / 12,
      total % 12,
      target.day - birth.day
      + (if target.day < birth.day then DaysInPreviousMonth(target.year, target.month) else 0),
      DayNumber(target) - DayNumber(birth),
      total)
  }

  /** The borrow steps of calculateAge on its local variables. */
  method Decompose(birth: Date, target: Date) returns (age: AgeResult)
    requires ValidDate(birth) && ValidDate(target)
    ensures age == Breakdown(birth, target)
  {
    var years := target.year - birth.year;
    var months := target.month - birth.month;
    var days := target.day - birth.day;
    if days < 0 {
      var lastMonthDate := MakeDate(target.year, target.month, 0);
      days := days + lastMonthDate.day;
      months := months - 1;
    }
    if months < 0 {
      months := months + 12;
      years := years - 1;
    }
    var totalDays := DayNumber(target) - DayNumber(birth);
    var totalMonths := years * 12 + months;
    age := AgeResult(years, months, days, totalDays, totalMonths);
  }

  /** The birthday in year y: the birth month and day put into that year by
      the host's date constructor, so that 29 February becomes 1 March in a
      common year. */
  function Occurrence(birth: Date, y: int): (r: Date)
    requires ValidDate(birth)
    ensures ValidDate(r) && r.year == y
    ensures birth.day <= DaysInMonth(y, birth.month) ==> r == Date(y, birth.month, birth.day)
    ensures birth.day > DaysInMonth(y, birth.month) ==>
              birth.month == 2 && birth.day == 29 && !IsLeapYear(y) && r == Date(y, 3, 1)
  {
    MakeDate(y, birth.month, birth.day)
  }

  /** nb is the next birthday seen from today: this year's birthday unless it
      is already past, then next year's, with the days between. */
  predicate IsNextBirthday(birth: Date, today: Date, nb: NextBirthday)
    requires ValidDate(birth) && ValidDate(today)
  {
    (nb.date == Occurrence(birth, today.year) || nb.date == Occurrence(birth, today.year + 1))
    && !Precedes(nb.date, today)
    && (nb.date != Occurrence(birth, today.year) ==> Precedes(Occurrence(birth, today.year), today))
    && ValidDate(nb.date)
    && nb.daysRemaining == DayNumber(nb.date) - DayNumber(today)
  }

  /** The next-birthday steps of calculateAge. */
  method LocateNextBirthday(birth: Date, today: Date) returns (nb: NextBirthday)
    requires ValidDate(birth) && ValidDate(today)
    ensures IsNextBirthday(birth, today, nb)
  {
    var currentYear := today.year;
    var nextBirthdayDate := MakeDate(currentYear, birth.month, birth.day);
    DayNumberOrder(nextBirthdayDate, today);
    if DayNumber(nextBirthdayDate) < DayNumber(today) {
      nextBirthdayDate := MakeDate(currentYear + 1, birth.month, birth.day);
    }
    var daysUntilBirthday := DayNumber(nextBirthdayDate) - DayNumber(today);
    nb := NextBirthday(nextBirthdayDate, daysUntilBirthday);
  }

  /** The target date of the calculation: the entered one, or today when none is entered. */
  function TargetOf(targetDate: string, today: Date): Option<Date> {
    if targetDate == [] then Some(today) else ParseDate(targetDate)
  }

  /** calculateAge: each refusal in the order the checks run, otherwise the
      breakdown from birth to target and the next birthday from today. */
  method CalculateAge(birthDate: string, targetDate: string, today: Date) returns (r: Result<Report>)
    requires ValidDate(today)
    ensures birthDate == [] ==> r == Err(MissingBirthDate)
    ensures birthDate != [] && ParseDate(birthDate).None? ==> r == Err(InvalidBirthDate)
    ensures birthDate != [] && ParseDate(birthDate).Some? && TargetOf(targetDate, today).None? ==>
              r == Err(InvalidTargetDate)
    ensures birthDate != [] && ParseDate(birthDate).Some? && TargetOf(targetDate, today).Some? ==>
              var birth, target := ParseDate(birthDate).value, TargetOf(targetDate, today).value;
              if Precedes(target, birth) then r == Err(BirthAfterTarget)
              else r.Ok? && r.value.age == Breakdown(birth, target)
                   && IsNextBirthday(birth, today, r.value.nextBirthday)
  {
    if birthDate == [] {
      return Err(MissingBirthDate);
    }
    var birth := ParseDate(birthDate);
    var target := if targetDate != [] then ParseDate(targetDate) else Some(today);
    if birth.None? {
      return Err(InvalidBirthDate);
    }
    if target.None? {
      return Err(InvalidTargetDate);
    }
    DayNumberOrder(target.value, birth.value);
    if DayNumber(birth.value) > DayNumber(target.value) {
      return Err(BirthAfterTarget);
    }
    var age := Decompose(birth.value, target.value);
    var next := LocateNextBirthday(birth.value, today);
    r := Ok(Report(age, next));
  }
}
