/** What the age breakdown and the next birthday promise, stated over the
    reference definitions that the calculator's methods are proved to meet. */
module AgeProperties {
  import opened Calendar
  import opened DateText
  import opened AgeCalculator

  /** Calendar addition of k months to d, keeping the day of the month as it is
      (the result is not a real date when that day is past the new month's end). */
  function AddMonths(d: Date, k: int): Date {
    Date(d.year + (d.month - 1 + k) / 12, (d.month - 1 + k) % 12 + 1, d.day)
  }

  /** For any two real dates: totalMonths is years * 12 + months, months lies
      in 0..11 and days never exceeds 30. */
  lemma BreakdownFields(birth: Date, target: Date)
    requires ValidDate(birth) && ValidDate(target)
    ensures var r := Breakdown(birth, target);
      r.totalMonths == r.years * 12 + r.months && 0 <= r.months <= 11 && r.days <= 30
  {
  }

  /** When the birth is not after the target, no count is negative except
      possibly days (see DaysSign). */
  lemma BreakdownInOrder(birth: Date, target: Date)
    requires ValidDate(birth) && ValidDate(target)
    requires !Precedes(target, birth)
    ensures var r := Breakdown(birth, target);
      r.years >= 0 && r.totalMonths >= 0 && r.totalDays >= 0
  {
    DayNumberOrder(target, birth);
  }

  /** After the day borrow, days is negative exactly when the birth day exceeds
      the target day by more than the length of the month before the target's
      month; so a birth day no longer than that month never leaves it negative. */
  lemma DaysSign(birth: Date, target: Date)
    requires ValidDate(birth) && ValidDate(target)
    ensures var r := Breakdown(birth, target);
      var previous := DaysInPreviousMonth(target.year, target.month);
      (r.days >= 0 <==> birth.day <= target.day || birth.day - target.day <= previous)
      && (birth.day <= previous ==> r.days >= 0)
  {
  }

  /** totalDays is the exact day difference: zero exactly for equal dates and
      never negative when the birth is not after the target. */
  lemma TotalDaysExact(birth: Date, target: Date)
    requires ValidDate(birth) && ValidDate(target)
    ensures var r := Breakdown(birth, target);
      (r.totalDays == 0 <==> birth == target)
      && (r.totalDays >= 0 <==> !Precedes(target, birth))
      && (r.totalDays > 0 <==> Precedes(birth, target))
  {
    DayNumberOrder(birth, target);
  }

  /** On equal dates every field of the breakdown is zero. */
  lemma BreakdownOfSameDate(d: Date)
    requires ValidDate(d)
    ensures Breakdown(d, d) == AgeResult(0, 0, 0, 0, 0)
  {
  }

  /** Adding totalMonths months to the birth date keeps its day of the month and
      lands in the target's month, or in the month before it when the day was
      borrowed; when that is a real date, days more days reach the target. */
  lemma BreakdownRecomposes(birth: Date, target: Date)
    requires ValidDate(birth) && ValidDate(target)
    ensures var r := Breakdown(birth, target);
      var a := AddMonths(birth, r.totalMonths);
      var borrowed := target.day < birth.day;
      12 * a.year + a.month == 12 * target.year + target.month - (if borrowed then 1 else 0)
      && (ValidDate(a) ==> DayNumber(a) + r.days == DayNumber(target))
  {
    var r := Breakdown(birth, target);
    var a := AddMonths(birth, r.totalMonths);
    if target.day < birth.day {
      var last := MakeDate(target.year, target.month, 0);
      if target.month == 1 {
        assert a.year == target.year - 1 && a.month == 12;
      } else {
        assert a.year == target.year && a.month == target.month - 1;
      }
      if ValidDate(a) {
        assert last == Date(a.year, a.month, DaysInPreviousMonth(target.year, target.month));
        assert DayNumber(a) == DayNumber(last) - DaysInPreviousMonth(target.year, target.month) + birth.day;
      }
    } else {
      assert a.year == target.year && a.month == target.month;
    }
  }

  /** The day borrow can leave days negative, and then the breakdown does not
      add back up to the target: from 2023-01-31 to 2023-03-01 the calculator
      reports one month and minus two days, and 31 February is no date. */
  lemma MonthEndBorrow()
    ensures Breakdown(Date(2023, 1, 31), Date(2023, 3, 1)) == AgeResult(0, 1, -2, 29, 1)
    ensures !ValidDate(AddMonths(Date(2023, 1, 31), 1))
  {
  }

  /** Worked values: a leap-day birth, a whole anniversary, and one day short of it. */
  lemma BreakdownExamples()
    ensures Breakdown(Date(2000, 2, 29), Date(2023, 3, 1)) == AgeResult(23, 0, 0, 8401, 276)
    ensures Breakdown(Date(1990, 5, 15), Date(2024, 5, 15)) == AgeResult(34, 0, 0, 12419, 408)
    ensures Breakdown(Date(1990, 5, 15), Date(2024, 5, 14)) == AgeResult(33, 11, 29, 12418, 407)
  {
  }

  /** Birthdays of consecutive years lie 365 or 366 days apart. */
  lemma OccurrencesYearApart(birth: Date, y: int)
    requires ValidDate(birth)
    ensures 365 <= DayNumber(Occurrence(birth, y + 1)) - DayNumber(Occurrence(birth, y)) <= 366
  {
    DaysBeforeYearStep(y);
    assert IsLeapYear(y) ==> !IsLeapYear(y + 1);
  }

  /** There is only one next birthday for a birth date and a today. */
  lemma NextBirthdayUnique(birth: Date, today: Date, x: NextBirthday, z: NextBirthday)
    requires ValidDate(birth) && ValidDate(today)
    requires IsNextBirthday(birth, today, x) && IsNextBirthday(birth, today, z)
    ensures x == z
  {
  }

  /** The next birthday is today or later, at most 365 days away, in this year
      or the next, and it is zero days away exactly when today is the birthday. */
  lemma NextBirthdayBounds(birth: Date, today: Date, nb: NextBirthday)
    requires ValidDate(birth) && ValidDate(today)
    requires IsNextBirthday(birth, today, nb)
    ensures 0 <= nb.daysRemaining <= 365
    ensures nb.date.year == today.year || nb.date.year == today.year + 1
    ensures nb.daysRemaining == 0 <==> nb.date == today
    ensures nb.daysRemaining == 0 <==> Occurrence(birth, today.year) == today
  {
    var thisYear := Occurrence(birth, today.year);
    DayNumberOrder(nb.date, today);
    DayNumberOrder(thisYear, today);
    if nb.date == thisYear {
      DayOfYearBounds(nb.date);
      DayOfYearBounds(today);
    } else {
      OccurrencesYearApart(birth, today.year);
    }
  }

  /** No birthday of any year falls on or after today yet before the next birthday. */
  lemma NextBirthdayIsEarliest(birth: Date, today: Date, nb: NextBirthday, y: int)
    requires ValidDate(birth) && ValidDate(today)
    requires IsNextBirthday(birth, today, nb)
    requires !Precedes(Occurrence(birth, y), today)
    ensures !Precedes(Occurrence(birth, y), nb.date)
  {
  }

  /** Worked values: on the birthday itself nothing remains; the day after, the
      birthday of the following year is 364 days away. */
  lemma NextBirthdayExamples(nb: NextBirthday)
    ensures IsNextBirthday(Date(1990, 7, 4), Date(2024, 7, 4), nb) <==>
              nb == NextBirthday(Date(2024, 7, 4), 0)
    ensures IsNextBirthday(Date(1990, 7, 4), Date(2024, 7, 5), nb) <==>
              nb == NextBirthday(Date(2025, 7, 4), 364)
  {
  }

  /** A leap-day birthday in a common year is celebrated on 1 March. */
  lemma LeapDayBirthday(y: int)
    requires !IsLeapYear(y)
    ensures Occurrence(Date(2000, 2, 29), y) == Date(y, 3, 1)
  {
  }

  /** The inputs the validation turns away. */
  lemma ValidationExamples(today: Date)
    requires ValidDate(today)
    ensures ParseDate("2024-13-01") == None
    ensures ParseDate("2023-02-29") == None
    ensures ParseDate("2024-02-29") == Some(Date(2024, 2, 29))
    ensures TargetOf("", today) == Some(today)
  {
    var bad, common, leap := "2024-13-01", "2023-02-29", "2024-02-29";
    assert bad[5..7] == "13" && ValueOf("13") == 13;
    assert "2023"[..3] == "202" && "2024"[..3] == "202" && "202"[..2] == "20" && "20"[..1] == "2";
    assert common[..4] == "2023" && ValueOf("2023") == 2023;
    assert common[5..7] == leap[5..7] == "02" && ValueOf("02") == 2;
    assert common[8..] == leap[8..] == "29" && ValueOf("29") == 29;
    assert leap[..4] == "2024" && ValueOf("2024") == 2024;
  }

  /** A birth of "2024-06-01" and a target of "2024-01-01" both read as dates,
      and the target precedes the birth; by CalculateAge's last ensures that
      input is therefore refused with BirthAfterTarget. */
  lemma BirthAfterTargetExample()
    ensures ParseDate("2024-06-01") == Some(Date(2024, 6, 1))
    ensures ParseDate("2024-01-01") == Some(Date(2024, 1, 1))
    ensures Precedes(Date(2024, 1, 1), Date(2024, 6, 1))
  {
    var june, january := "2024-06-01", "2024-01-01";
    assert "2024"[..3] == "202" && "202"[..2] == "20" && "20"[..1] == "2";
    assert june[..4] == january[..4] == "2024" && ValueOf("2024") == 2024;
    assert june[5..7] == "06" && ValueOf("06") == 6;
    assert january[5..7] == "01" && june[8..] == january[8..] == "01" && ValueOf("01") == 1;
  }
}
