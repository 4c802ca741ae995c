# Age calculator: calendar arithmetic in Dafny

This project models the one piece of real logic in the Age Calculator React
component: `calculateAge` and `formatDateForInput`. The component exists in two
near-identical copies, `src/AgeCalculator.tsx` and `src/age.tsx`. Both hold the
same active code at different line numbers, so one model serves both, and the
table below cites each copy.

`calculateAge` does four things:

1. **Input checks.** An empty birth date is refused first. An empty target date
   means "today". A birth or target string that is not a date is refused, each
   with its own error. A birth date later than the target is refused, and equal
   dates are accepted.
2. **Breakdown.** It takes raw year, month and day differences, then borrows
   twice. First, a negative day count gets the length of the month before the
   target's month added, and months lose one. Then a negative month count gets
   12 added, and years lose one. `totalDays` is the exact day difference and
   `totalMonths` is `years * 12 + months`.
3. **Next birthday.** It puts the birth month and day into today's year. If
   that date is already past, it moves to the next year. It reports the days
   remaining until then.
4. **Formatting.** `formatDateForInput` writes a date as `year-MM-DD` to fill
   the target-date input. For years 1000..9999 this is the extended
   calendar-date form of section 4.1.2.2 of ISO 8601:2004. Other years are
   written unpadded.

Files:

- `calendar.dfy`, module `Calendar`.
  - `Date(year, month, day)` with 1-based months, the Gregorian leap-year rule
    and `DaysInMonth`.
  - `DayNumber`, whole days since 0001-01-01. It stands in for the source's
    millisecond timestamp divided by 86 400 000.
  - `MakeDate`, the host's `new Date(year, monthIndex, day)` carry for days
    0..31, for years outside 0..99. Day 0 is the last day of the month before,
    and a day past the end of the month carries into the next month.
  - The lemma that day-number order is calendar order.
- `date_text.dfy`, module `DateText`.
  - `FormatDateForInput`, built from `String(n)` and `padStart`.
  - `ParseDate`, the `YYYY-MM-DD` reading that stands in for `new Date(string)`
    followed by the `isNaN(getTime())` test.
  - Both round-trip laws.
- `age_calculator.dfy`, module `AgeCalculator`. It holds the source's
  step-by-step updates of its local variables as methods:
  - `Decompose`: the borrows.
  - `LocateNextBirthday`: the reassignment of the next-birthday date.
  - `CalculateAge`: the checks and their early returns.

  Each method is proved against a reference definition:
  - `Breakdown`: whole months split by `/` and `%` 12, with no borrow steps.
  - `IsNextBirthday`: a declarative description of the next birthday.
- `age_properties.dfy`, module `AgeProperties`: what those reference
  definitions promise.

"Today" is a parameter of `CalculateAge`. As in the source, it serves both as
the default target and as the reference point for the next birthday. The next
birthday is always counted from today, even when the user enters a different
target date.

## Behaviour as written

The model follows the code in these places. A reader might expect otherwise.

- `days` can be negative. A birth on 2023-01-31 and a target of 2023-03-01 give
  1 month and -2 days (`MonthEndBorrow`). The borrow adds February's 28 days to
  1 - 31. The breakdown then does not add back up to the target, because 31
  February is not a date. `DaysSign` gives the exact condition. `days >= 0`
  holds whenever the birth day is at most the length of the month before the
  target's month.
- A birth on 2000-02-29 and a target of 2023-03-01 give 23 years, 0 months and
  0 days. The borrow uses February 2023, which has 28 days. `totalDays` is 8401.
- A birth on 1990-05-15 and a target of 2024-05-14 give 33 years, 11 months and
  29 days: 14 - 15 + 30, where 30 is April's length (`BreakdownExamples`).
- The year is written with `String(year)` and is not padded. Only dates whose
  year has four digits read back from their formatted text
  (`FormatParseRoundTrip`).
- A 29 February birthday in a common year falls on 1 March. This is the host's
  day carry (`Occurrence`, `LeapDayBirthday`).

## Model

| member | source | states |
|---|---|---|
| `Calendar.DaysInMonth` | src/AgeCalculator.tsx:68-73 | Every month has 28 to 31 days. February has 29 exactly in a Gregorian leap year. Of the other months, exactly April, June, September and November have 30. |
| `Calendar.MakeDate` | src/age.tsx:76-77 | For a year outside 0..99, `new Date(y, m, d)` with day 0..31 is a real date that lies d - 1 days after the first of month m. Day 0 is the last day of the previous month, wrapping January to December of the year before. An in-range day is kept unchanged. |
| `Calendar.DaysBeforeYearStep` | src/AgeCalculator.tsx:84-86 | The day count underlying `totalDays` advances by 366 over a leap year and by 365 over any other year. |
| `Calendar.DaysBeforeYearGrows` | src/age.tsx:88 | Every day of a year has a smaller day number than the first day of any later year. |
| `Calendar.DayNumberOrder` | src/AgeCalculator.tsx:56-59 | For real dates, timestamp comparison is calendar comparison: a smaller day number exactly when the date is earlier, and equal day numbers exactly when the dates are equal. |
| `DateText.PadStart` | src/age.tsx:39-40 | The padded text has the requested width or more. It ends with the original text and is filled with the fill character before it. |
| `DateText.ParseDate` | src/AgeCalculator.tsx:42-54 | Only a `YYYY-MM-DD` string naming a real calendar date is read as a date; everything else is an invalid date. An accepted date has a year in 0..9999. |
| `DateText.FormatParseRoundTrip` | src/age.tsx:37-42 | For a real date, reading the formatted text gives back the same date if and only if the year has four digits. |
| `DateText.ParseFormatRoundTrip` | src/AgeCalculator.tsx:29-34 | Any accepted input with a year from 1000 on is exactly what the formatter writes for the date it denotes. |
| `DateText.NumeralLength` | src/AgeCalculator.tsx:30-33 | The decimal text of n has at most k digits exactly when n < 10^k. This fixes the width of the unpadded year and of the padded month and day. |
| `AgeCalculator.Decompose` | src/AgeCalculator.tsx:61-87 | The borrow steps on the local year, month and day counts produce exactly the reference breakdown: whole months divided by 12, the remainder, days within the month ending at the target, and the exact day difference. |
| `AgeCalculator.Occurrence` | src/AgeCalculator.tsx:100-104 | The birthday in a given year is a real date in that year. It keeps the birth month and day when that day exists in that year. Otherwise the birth was 29 February, the year is common, and the birthday is 1 March. |
| `AgeCalculator.LocateNextBirthday` | src/age.tsx:99-113 | The result is this year's birthday unless that is already past today, and then next year's. It is never before today, and its days remaining are the day difference from today. |
| `AgeCalculator.CalculateAge` | src/AgeCalculator.tsx:36-122 | The checks run in order. Empty birth text gives MissingBirthDate. Unreadable birth text gives InvalidBirthDate. Unreadable target text gives InvalidTargetDate, and empty target text means today. A birth after the target gives BirthAfterTarget. Otherwise the result is the reference breakdown from birth to target and the next birthday from today. |
| `AgeProperties.BreakdownFields` | src/age.tsx:70-89 | For any two real dates, `totalMonths == years * 12 + months`, `0 <= months <= 11` and `days <= 30`. |
| `AgeProperties.BreakdownInOrder` | src/AgeCalculator.tsx:56-87 | When the birth is not after the target, `years`, `totalMonths` and `totalDays` are all non-negative. |
| `AgeProperties.DaysSign` | src/AgeCalculator.tsx:66-75 | `days` is non-negative exactly when the birth day is at most the target day, or exceeds it by no more than the length of the month before the target's month. So a birth day no longer than that month never leaves `days` negative. |
| `AgeProperties.TotalDaysExact` | src/age.tsx:88 | `totalDays` is 0 exactly for equal dates. It is non-negative exactly when the birth is not after the target, and positive exactly when the birth is earlier. |
| `AgeProperties.BreakdownOfSameDate` | src/AgeCalculator.tsx:62-95 | Equal dates give a breakdown of all zeros. |
| `AgeProperties.BreakdownRecomposes` | src/age.tsx:70-85 | Adding `totalMonths` months to the birth date lands in the target's month, or in the month before it when the day was borrowed. When that is a real date, adding `days` more reaches the target exactly. |
| `AgeProperties.MonthEndBorrow` | src/age.tsx:75-79 | From 2023-01-31 to 2023-03-01 the breakdown is 0 years, 1 month, -2 days, 29 total days and 1 total month, and adding one month gives 31 February, which is not a date. |
| `AgeProperties.BreakdownExamples` | src/AgeCalculator.tsx:62-87 | 2000-02-29 to 2023-03-01 gives (23, 0, 0, 8401, 276). 1990-05-15 to 2024-05-15 gives (34, 0, 0, 12419, 408). 1990-05-15 to 2024-05-14 gives (33, 11, 29, 12418, 407). |
| `AgeProperties.OccurrencesYearApart` | src/age.tsx:102-105 | The birthdays of two consecutive years lie 365 or 366 days apart. |
| `AgeProperties.NextBirthdayUnique` | src/AgeCalculator.tsx:98-112 | A birth date and a today have only one next birthday. |
| `AgeProperties.NextBirthdayBounds` | src/age.tsx:100-113 | The days remaining lie in 0..365. The next birthday is in today's year or the next one. Zero days remain exactly when the next birthday is today, which is exactly when today is this year's birthday. |
| `AgeProperties.NextBirthdayIsEarliest` | src/AgeCalculator.tsx:106-112 | No birthday of any year is on or after today and yet before the next birthday. |
| `AgeProperties.NextBirthdayExamples` | src/age.tsx:104-108 | With a 4 July birth and today 2024-07-04, the next birthday is 2024-07-04 with 0 days left. With today 2024-07-05 it is 2025-07-04 with 364 days left. |
| `AgeProperties.LeapDayBirthday` | src/AgeCalculator.tsx:100-111 | A 29 February birthday falls on 1 March in every common year. |
| `AgeProperties.ValidationExamples` | src/age.tsx:50-67 | "2024-13-01" and "2023-02-29" are refused and "2024-02-29" is read. Empty target text means today. |
| `AgeProperties.BirthAfterTargetExample` | src/age.tsx:64-67 | "2024-06-01" and "2024-01-01" both read as dates, and the second precedes the first, so `CalculateAge` refuses that birth with that target as BirthAfterTarget. |

## Left out

- Rendering, `useState`/`useEffect`, `alert` and `resetCalculator`: presentation only. The alerts become `AgeError` values, and the `setAge`/`setNextBirthday` writes become the returned `Report`.
- The commented-out life-events code in `src/age.tsx`, and the stray `setLifeEvents([])` in its `resetCalculator`. That call refers to state that no longer exists.
- Reads of the wall clock (`new Date()`): today is the explicit date-only parameter `today`.
- Millisecond timestamps, the division by 86 400 000, and `Math.floor`/`Math.ceil`: replaced by differences of integer day numbers.
- Host time zones: the host reads `YYYY-MM-DD` text as UTC midnight, but `getFullYear`/`getMonth`/`getDate` answer in local time. The model treats every date as a time-zone-free calendar date.
- The host's other accepted date-text forms, and engine-specific leniency such as rolling `2024-02-30` forward: `DateText.ParseDate` accepts only `YYYY-MM-DD` naming a real date.
- Calendar.MakeDate: keeps the year as given. The host's constructor reads a year of 0..99 as 1900..1999, and the model does not. This changes two results. The February borrow for a March target in years 0..99: birth 0000-01-31 and target 0000-03-01 give -2 days in the source and -1 in the model. The next birthday for a today in years -1..99: the source builds it in 1899..1999. Date inputs in practice and the clock never produce such years.
- The host date type's range limit of about 275 000 years either side of 1970: years here are unbounded integers.
- AgeCalculator.LocateNextBirthday: compares dates only, without the time of day. The source compares this year's birthday at local midnight with the current instant. On the birthday itself the source therefore moves to next year and reports about 365 days, where the model reports 0.
- AgeCalculator.CalculateAge: with an empty target, the source compares the birth date with the current instant. The model compares it with today's date.
