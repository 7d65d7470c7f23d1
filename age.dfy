/**
  The age pane: the strict parser of the date of birth (`dd/mm/yyyy`, or
  `yyyy-mm-dd`) and the year, month and day borrow subtraction against
  today's date, which is a parameter here.
 */
module AgeCalc {
  import opened Common
  import opened Text

  /** A calendar date; `month` counts from 1. */
  datatype Ymd = Ymd(year: int, month: int, day: int)

  /** The three numbers of "`years` years, `months` months, `days` days". */
  datatype AgeParts = AgeParts(years: int, months: int, days: int)

  // ---------------------------------------------------------------------------
  // The date of birth.

  /** `s` starts with `lo` to `hi` digits followed by `sep`: those digits and
      what follows `sep`. */
  function SplitField(s: string, sep: char, lo: nat, hi: nat): (r: Option<(string, string)>)
    ensures r.Some? ==> s == r.value.0 + [sep] + r.value.1
    ensures r.Some? ==> AllDigits(r.value.0) && lo <= |r.value.0| <= hi
  {
    var n := DigitRun(s);
    if lo <= n <= hi && n < |s| && s[n] == sep then
      assert s == s[..n] + [sep] + s[n + 1..];
      Some((s[..n], s[n + 1..]))
    else
      None
  }

  /** A digit field directly followed by a non-digit separator is split off exactly. */
  lemma SplitFieldOf(d: string, sep: char, rest: string, lo: nat, hi: nat)
    requires AllDigits(d) && lo <= |d| <= hi && !IsDigit(sep)
    ensures DigitRun(d + [sep] + rest) == |d|
    ensures SplitField(d + [sep] + rest, sep, lo, hi) == Some((d, rest))
  {
    var s := d + [sep] + rest;
    assert s == d + ([sep] + rest);
    DigitRunAppend(d, [sep] + rest);
    assert s[..|d|] == d;
    assert s[|d| + 1..] == rest;
  }

  /** The three digit fields of a date, in the order they are written. */
  datatype Fields = Fields(first: string, second: string, third: string)

  /** The digit fields have the widths `\d{w1}`, `\d{w2}`, `\d{w3}` ask for. */
  predicate FieldWidths(f: Fields, lo1: nat, hi1: nat, lo2: nat, hi2: nat, lo3: nat, hi3: nat) {
    && AllDigits(f.first) && AllDigits(f.second) && AllDigits(f.third)
    && lo1 <= |f.first| <= hi1 && lo2 <= |f.second| <= hi2 && lo3 <= |f.third| <= hi3
  }

  /** The slash form `(\d{1,2})\/(\d{1,2})\/(\d{4})` is all of `t`. */
  predicate SlashShaped(t: string, f: Fields) {
    FieldWidths(f, 1, 2, 1, 2, 4, 4) && t == f.first + "/" + f.second + "/" + f.third
  }

  /** The dash form `(\d{4})-(\d{1,2})-(\d{1,2})` is all of `t`. */
  predicate DashShaped(t: string, f: Fields) {
    FieldWidths(f, 4, 4, 1, 2, 1, 2) && t == f.first + "-" + f.second + "-" + f.third
  }

  /** The match of the slash form against a trimmed text. */
  function SlashFields(t: string): (r: Option<Fields>)
    ensures r.Some? ==> SlashShaped(t, r.value)
  {
    match SplitField(t, '/', 1, 2)
    case None => None
    case Some((d, rest)) =>
      match SplitField(rest, '/', 1, 2)
      case None => None
      case Some((m, y)) =>
        if AllDigits(y) && |y| == 4 then Some(Fields(d, m, y)) else None
  }

  /** The match of the dash form against a trimmed text. */
  function DashFields(t: string): (r: Option<Fields>)
    ensures r.Some? ==> DashShaped(t, r.value)
  {
    match SplitField(t, '-', 4, 4)
    case None => None
    case Some((y, rest)) =>
      match SplitField(rest, '-', 1, 2)
      case None => None
      case Some((m, d)) =>
        if AllDigits(d) && 1 <= |d| <= 2 then Some(Fields(y, m, d)) else None
  }

  /** Every text of the slash form matches it, with these fields. */
  lemma SlashFieldsOf(t: string, f: Fields)
    requires SlashShaped(t, f)
    ensures SlashFields(t) == Some(f)
  {
    assert t == f.first + ['/'] + (f.second + ['/'] + f.third);
    SplitFieldOf(f.first, '/', f.second + ['/'] + f.third, 1, 2);
    SplitFieldOf(f.second, '/', f.third, 1, 2);
  }

  /** Every text of the dash form matches it, with these fields, and not the slash form. */
  lemma DashFieldsOf(t: string, f: Fields)
    requires DashShaped(t, f)
    ensures DashFields(t) == Some(f) && SlashFields(t) == None
  {
    assert t == f.first + ['-'] + (f.second + ['-'] + f.third);
    SplitFieldOf(f.first, '-', f.second + ['-'] + f.third, 4, 4);
    SplitFieldOf(f.second, '-', f.third, 1, 2);
  }

  /** The slash form's range check: month 1 to 12, day 1 to 31. */
  predicate SlashInRange(d: nat, m: nat) {
    1 <= m <= 12 && 1 <= d <= 31
  }

  /** The two regular expressions applied to the trimmed value, the slash form
      first: a slash date out of range and a text of neither form are rejected
      with their messages; otherwise the year, month and day as written
      (before `Date` normalises them). */
  function ParseTrimmed(t: string): (r: Result<Ymd, string>)
    ensures r.Failure? ==> r.error == "Enter in dd/mm/yyyy." || r.error == "Enter DOB as dd/mm/yyyy."
    ensures r.Success? ==> 0 <= r.value.year < 10000 && 0 <= r.value.month < 100 && 0 <= r.value.day < 100
  {
    match SlashFields(t)
    case Some(f) =>
      var d := DigitsValue(f.first);
      var m := DigitsValue(f.second);
      var y := DigitsValue(f.third);
      DigitsValueBound(f.first);
      DigitsValueBound(f.second);
      DigitsValueBound(f.third);
      if !SlashInRange(d, m) then Failure("Enter in dd/mm/yyyy.") else Success(Ymd(y, m, d))
    case None =>
      match DashFields(t)
      case Some(f) =>
        DigitsValueBound(f.first);
        DigitsValueBound(f.second);
        DigitsValueBound(f.third);
        Success(Ymd(DigitsValue(f.first), DigitsValue(f.second), DigitsValue(f.third)))
      case None => Failure("Enter DOB as dd/mm/yyyy.")
  }

  /** The parse in `ageCalc.compute`: an empty value is rejected with "Select a
      valid date."; the slash form and the dash form may have white space
      around them. */
  function ParseDob(value: string): (r: Result<Ymd, string>)
    ensures r == Failure("Select a valid date.") <==> value == []
    ensures r.Failure? ==>
              r.error == "Select a valid date." || r.error == "Enter in dd/mm/yyyy." || r.error == "Enter DOB as dd/mm/yyyy."
    ensures r.Success? ==> 0 <= r.value.year < 10000 && 0 <= r.value.month < 100 && 0 <= r.value.day < 100
  {
    if value == [] then Failure("Select a valid date.") else ParseTrimmed(Trim(value))
  }

  /** The fields start and end with a digit, so the white space around them is
      exactly what trimming removes. */
  lemma TrimAround(ws1: string, body: string, ws2: string)
    requires AllSpace(ws1) && AllSpace(ws2)
    requires body != [] && IsDigit(body[0]) && IsDigit(body[|body| - 1])
    ensures Trim(ws1 + body + ws2) == body && ws1 + body + ws2 != []
  {
    TrimPadded(ws1, body, ws2);
  }

  /** A slash date with white space around it is accepted when its month and
      day are in range, and rejected with "Enter in dd/mm/yyyy." otherwise. */
  lemma SlashAccepted(ws1: string, f: Fields, ws2: string)
    requires AllSpace(ws1) && AllSpace(ws2) && FieldWidths(f, 1, 2, 1, 2, 4, 4)
    ensures ParseDob(ws1 + f.first + "/" + f.second + "/" + f.third + ws2) ==
              if SlashInRange(DigitsValue(f.first), DigitsValue(f.second))
              then Success(Ymd(DigitsValue(f.third), DigitsValue(f.second), DigitsValue(f.first)))
              else Failure("Enter in dd/mm/yyyy.")
  {
    var body := f.first + "/" + f.second + "/" + f.third;
    assert body[0] == f.first[0];
    assert body[|body| - 1] == f.third[3];
    assert ws1 + f.first + "/" + f.second + "/" + f.third + ws2 == ws1 + body + ws2;
    TrimAround(ws1, body, ws2);
    SlashFieldsOf(body, f);
  }

  /** A dash date with white space around it is accepted with its fields as
      written: there is no range check, so month 13 or day 0 get through. */
  lemma DashAccepted(ws1: string, f: Fields, ws2: string)
    requires AllSpace(ws1) && AllSpace(ws2) && FieldWidths(f, 4, 4, 1, 2, 1, 2)
    ensures ParseDob(ws1 + f.first + "-" + f.second + "-" + f.third + ws2) ==
              Success(Ymd(DigitsValue(f.first), DigitsValue(f.second), DigitsValue(f.third)))
  {
    var body := f.first + "-" + f.second + "-" + f.third;
    assert body[0] == f.first[0];
    assert body[|body| - 1] == f.third[|f.third| - 1];
    assert ws1 + f.first + "-" + f.second + "-" + f.third + ws2 == ws1 + body + ws2;
    TrimAround(ws1, body, ws2);
    DashFieldsOf(body, f);
  }

  /** What the field parse accepts is one of the two forms, and its result is
      read off the fields; a slash date is in range. */
  lemma ParseTrimmedShape(t: string) returns (f: Fields)
    requires ParseTrimmed(t).Success?
    ensures || (SlashShaped(t, f) && SlashDate(f, ParseTrimmed(t).value))
            || (DashShaped(t, f) && DashDate(f, ParseTrimmed(t).value))
  {
    if SlashFields(t).Some? {
      f := SlashFields(t).value;
    } else {
      f := DashFields(t).value;
    }
  }

  /** What `ParseDob` accepts is one of the two forms with white space around it. */
  lemma ParseDobShape(value: string) returns (lead: string, t: string, trail: string, f: Fields)
    requires ParseDob(value).Success?
    ensures value == lead + t + trail && AllSpace(lead) && AllSpace(trail)
    ensures || (SlashShaped(t, f) && SlashDate(f, ParseDob(value).value))
            || (DashShaped(t, f) && DashDate(f, ParseDob(value).value))
  {
    lead := TrimStartSplit(value);
    trail := TrimEndSplit(TrimStart(value));
    t := Trim(value);
    f := ParseTrimmedShape(t);
  }

  /** `date` is what the slash form with fields `f` denotes, in range. */
  predicate SlashDate(f: Fields, date: Ymd) {
    && FieldWidths(f, 1, 2, 1, 2, 4, 4)
    && SlashInRange(DigitsValue(f.first), DigitsValue(f.second))
    && date == Ymd(DigitsValue(f.third), DigitsValue(f.second), DigitsValue(f.first))
  }

  /** `date` is what the dash form with fields `f` denotes. */
  predicate DashDate(f: Fields, date: Ymd) {
    FieldWidths(f, 4, 4, 1, 2, 1, 2) && date == Ymd(DigitsValue(f.first), DigitsValue(f.second), DigitsValue(f.third))
  }

  /** A non-empty text without `/` and `-` is never a date. */
  lemma ParseDobRejects(value: string)
    requires value != [] && '/' !in value && '-' !in value
    ensures ParseDob(value) == Failure("Enter DOB as dd/mm/yyyy.")
  {
    TrimKeeps(value, '/');
    TrimKeeps(value, '-');
  }

  /** A text that starts and ends with a digit is its own trim. */
  lemma TrimDigitEnds(body: string)
    requires body != [] && IsDigit(body[0]) && IsDigit(body[|body| - 1])
    ensures Trim(body) == body
  {
  }

  /** A slash date written with the shortest digits round-trips exactly when
      it is in range. */
  lemma ShownSlashDate(y: nat, m: nat, d: nat)
    requires 1000 <= y < 10000 && m < 100 && d < 100
    ensures ParseDob(ShowNat(d) + "/" + ShowNat(m) + "/" + ShowNat(y)) ==
              if SlashInRange(d, m) then Success(Ymd(y, m, d)) else Failure("Enter in dd/mm/yyyy.")
  {
    var f := Fields(ShowNat(d), ShowNat(m), ShowNat(y));
    var body := f.first + "/" + f.second + "/" + f.third;
    assert body[0] == f.first[0];
    assert body[|body| - 1] == f.third[3];
    TrimDigitEnds(body);
    SlashFieldsOf(body, f);
  }

  /** A dash date written with the shortest digits always round-trips. */
  lemma ShownDashDate(y: nat, m: nat, d: nat)
    requires 1000 <= y < 10000 && m < 100 && d < 100
    ensures ParseDob(ShowNat(y) + "-" + ShowNat(m) + "-" + ShowNat(d)) == Success(Ymd(y, m, d))
  {
    var f := Fields(ShowNat(y), ShowNat(m), ShowNat(d));
    var body := f.first + "-" + f.second + "-" + f.third;
    assert body[0] == f.first[0];
    assert body[|body| - 1] == f.third[|f.third| - 1];
    TrimDigitEnds(body);
    DashFieldsOf(body, f);
  }

  // ---------------------------------------------------------------------------
  // The calendar.

  predicate IsLeapYear(y: int) {
    y % 4 == 0 && (y % 100 != 0 || y % 400 == 0)
  }

  function DaysInMonth(y: int, m: int): (n: int)
    requires 1 <= m <= 12
    ensures 28 <= n <= 31
  {
    if m == 2 then (if IsLeapYear(y) then 29 else 28)
    else if m == 4 || m == 6 || m == 9 || m == 11 then 30
    else 31
  }

  /** A date as `Date` holds it after normalisation. */
  predicate ValidDate(d: Ymd) {
    1 <= d.month <= 12 && 1 <= d.day <= DaysInMonth(d.year, d.month)
  }

  /** `a > b` on dates: `a` comes later. */
  predicate After(a: Ymd, b: Ymd) {
    || a.year > b.year
    || (a.year == b.year && (a.month > b.month || (a.month == b.month && a.day > b.day)))
  }

  /** Months since January of year 0. */
  function MonthIndex(d: Ymd): int {
    12 * d.year + (d.month - 1)
  }

  /** The length of the month with index `i`. */
  function MonthLength(i: int): (n: int)
    ensures 28 <= n <= 31
  {
    DaysInMonth(i / 12, i % 12 + 1)
  }

  /** `new Date(y, m, 0).getDate()`: the length of the month before today's. */
  function PrevMonthDays(today: Ymd): (n: int)
    ensures 28 <= n <= 31
    ensures 2 <= today.month <= 12 ==> n == DaysInMonth(today.year, today.month - 1)
    ensures today.month == 1 ==> n == DaysInMonth(today.year - 1, 12)
  {
    var i := MonthIndex(today) - 1;
    if 2 <= today.month <= 12 then
      DivMod12(i, today.year, today.month - 2);
      MonthLength(i)
    else if today.month == 1 then
      DivMod12(i, today.year - 1, 11);
      MonthLength(i)
    else
      MonthLength(i)
  }

  lemma DivMod12(t: int, q: int, m: int)
    requires 0 <= m < 12 && t == 12 * q + m
    ensures t / 12 == q && t % 12 == m
  {
  }

  /** The month index of a date gives back its year and month. */
  lemma MonthIndexOf(d: Ymd)
    requires 1 <= d.month <= 12
    ensures MonthLength(MonthIndex(d)) == DaysInMonth(d.year, d.month)
  {
    DivMod12(MonthIndex(d), d.year, d.month - 1);
  }

  /** A date that is not after `today` lies in today's month or an earlier one,
      and in today's month only up to today's day. */
  lemma NotAfterIndex(dob: Ymd, today: Ymd)
    requires 1 <= dob.month <= 12 && 1 <= today.month <= 12 && !After(dob, today)
    ensures MonthIndex(dob) <= MonthIndex(today)
    ensures MonthIndex(dob) == MonthIndex(today) ==> dob.day <= today.day
  {
    if dob.year < today.year {
      assert MonthIndex(dob) <= 12 * dob.year + 11;
      assert 12 * dob.year + 11 < 12 * today.year;
    }
  }

  // ---------------------------------------------------------------------------
  // The age as written.

  /** Whether the day step borrows a month. */
  function Borrow(dob: Ymd, today: Ymd): int {
    if today.day < dob.day then 1 else 0
  }

  /** The age counted in whole months: the months between the two dates,
      less one when today's day has not reached the birth day, split into years
      and months; the days are the day difference, raised by the previous
      month's length when a month was borrowed. */
  function AgeByMonthCount(dob: Ymd, today: Ymd): AgeParts {
    var total := MonthIndex(today) - MonthIndex(dob) - Borrow(dob, today);
    AgeParts(total / 12, total % 12, today.day - dob.day + Borrow(dob, today) * PrevMonthDays(today))
  }

  /** The future check and the borrow steps of `ageCalc.compute`. */
  method Age(dob: Ymd, today: Ymd) returns (r: Result<AgeParts, string>)
    requires ValidDate(dob) && ValidDate(today)
    ensures r.Failure? <==> After(dob, today)
    ensures r.Failure? ==> r.error == "Date is in the future."
    ensures r.Success? ==> r.value == AgeByMonthCount(dob, today)
  {
    if After(dob, today) {
      return Failure("Date is in the future.");
    }
    var years := today.year - dob.year;
    var months := today.month - dob.month;
    var days := today.day - dob.day;
    if days < 0 {
      days := days + PrevMonthDays(today);
      months := months - 1;
    }
    if months < 0 {
      months := months + 12;
      years := years - 1;
    }
    DivMod12(MonthIndex(today) - MonthIndex(dob) - Borrow(dob, today), years, months);
    r := Success(AgeParts(years, months, days));
  }

  /** The birthday of this year is still to come. */
  predicate BeforeBirthday(dob: Ymd, today: Ymd) {
    today.month < dob.month || (today.month == dob.month && today.day < dob.day)
  }

  /** The years are the birthdays passed, the months lie in 0..11, and the days
      lie in -2..30: one borrow can leave them negative. */
  lemma AgeBounds(dob: Ymd, today: Ymd)
    requires ValidDate(dob) && ValidDate(today) && !After(dob, today)
    ensures AgeByMonthCount(dob, today).years
              == today.year - dob.year - (if BeforeBirthday(dob, today) then 1 else 0)
    ensures AgeByMonthCount(dob, today).years >= 0
    ensures 0 <= AgeByMonthCount(dob, today).months <= 11
    ensures -2 <= AgeByMonthCount(dob, today).days <= 30
  {
    NotAfterIndex(dob, today);
    var b := Borrow(dob, today);
    var m := today.month - dob.month - b;
    var total := MonthIndex(today) - MonthIndex(dob) - b;
    assert total == 12 * (today.year - dob.year) + m;
    if m < 0 {
      DivMod12(total, today.year - dob.year - 1, m + 12);
    } else {
      DivMod12(total, today.year - dob.year, m);
    }
  }

  /** The days come out negative exactly when the birth day exceeds today's
      day by more than the previous month has days. */
  lemma NegativeDays(dob: Ymd, today: Ymd)
    requires ValidDate(dob) && ValidDate(today)
    ensures (AgeByMonthCount(dob, today).days < 0) <==> (dob.day - today.day > PrevMonthDays(today))
  {
  }

  /** Born on 31 January, on 1 March of a common year: 0 years, 1 month, -2 days. */
  lemma NegativeDaysExample()
    ensures AgeByMonthCount(Ymd(2023, 1, 31), Ymd(2023, 3, 1)) == AgeParts(0, 1, -2)
  {
    DivMod12(MonthIndex(Ymd(2023, 3, 1)) - 1, 2023, 1);
  }

  // ---------------------------------------------------------------------------
  // The age with the day borrow repeated, from earlier and earlier months,
  // while the days are negative.

  /** How many months the repeated day step borrows: at most two, since any
      two consecutive months have more days than a birth day. */
  function CorrectedBorrows(dob: Ymd, today: Ymd): int {
    if today.day >= dob.day then 0
    else if today.day - dob.day + MonthLength(MonthIndex(today) - 1) >= 0 then 1
    else 2
  }

  /** The lengths of the months borrowed, the latest first. */
  function BorrowedDays(today: Ymd, k: int): int {
    (if k >= 1 then MonthLength(MonthIndex(today) - 1) else 0)
    + (if k >= 2 then MonthLength(MonthIndex(today) - 2) else 0)
  }

  /** The age in whole months and remaining days, where the days are counted
      in the months actually borrowed. */
  function CorrectedAge(dob: Ymd, today: Ymd): AgeParts {
    var b := CorrectedBorrows(dob, today);
    var total := MonthIndex(today) - MonthIndex(dob) - b;
    AgeParts(total / 12, total % 12, today.day - dob.day + BorrowedDays(today, b))
  }

  /** The borrow steps as loops. While the days are negative, the length of
      the next earlier month is added: first the month before today's, then
      the one before that (repeating the code's `if` as written would add the
      same month twice). Then 12 months are borrowed from the years while the
      months are negative. */
  method AgeCorrected(dob: Ymd, today: Ymd) returns (r: Result<AgeParts, string>)
    requires ValidDate(dob) && ValidDate(today)
    ensures r.Failure? <==> After(dob, today)
    ensures r.Failure? ==> r.error == "Date is in the future."
    ensures r.Success? ==> r.value == CorrectedAge(dob, today)
  {
    if After(dob, today) {
      return Failure("Date is in the future.");
    }
    var years := today.year - dob.year;
    var months := today.month - dob.month;
    var days := today.day - dob.day;
    var k := 0;
    while days < 0
      invariant 0 <= k <= 2
      invariant days == today.day - dob.day + BorrowedDays(today, k)
      invariant months == today.month - dob.month - k
      invariant k >= 1 ==> today.day < dob.day
      invariant k == 2 ==> today.day - dob.day + MonthLength(MonthIndex(today) - 1) < 0
      decreases 2 - k
    {
      days := days + MonthLength(MonthIndex(today) - 1 - k);
      months := months - 1;
      k := k + 1;
    }
    assert k == CorrectedBorrows(dob, today);
    while months < 0
      invariant 12 * years + months == 12 * (today.year - dob.year) + today.month - dob.month - k
      invariant -14 <= months <= 11
      decreases -months
    {
      months := months + 12;
      years := years - 1;
    }
    DivMod12(MonthIndex(today) - MonthIndex(dob) - k, years, months);
    r := Success(AgeParts(years, months, days));
  }

  /** The corrected age never has negative parts: years from 0, months 0..11,
      days 0..30. */
  lemma CorrectedBounds(dob: Ymd, today: Ymd)
    requires ValidDate(dob) && ValidDate(today) && !After(dob, today)
    ensures CorrectedAge(dob, today).years >= 0
    ensures 0 <= CorrectedAge(dob, today).months <= 11
    ensures 0 <= CorrectedAge(dob, today).days <= 30
  {
    NotAfterIndex(dob, today);
    var b := CorrectedBorrows(dob, today);
    var total := MonthIndex(today) - MonthIndex(dob) - b;
    if b >= 1 && MonthIndex(dob) == MonthIndex(today) - 1 {
      MonthIndexOf(dob);
      assert b == 1;
    }
    assert total >= 0;
  }

  /** Where the source's age has no negative days, the corrected one agrees with it. */
  lemma CorrectedAgrees(dob: Ymd, today: Ymd)
    requires ValidDate(dob) && ValidDate(today)
    requires AgeByMonthCount(dob, today).days >= 0
    ensures CorrectedAge(dob, today) == AgeByMonthCount(dob, today)
  {
  }

  /** Born on 31 January, on 1 March of a common year: 29 days. */
  lemma CorrectedExample()
    ensures CorrectedAge(Ymd(2023, 1, 31), Ymd(2023, 3, 1)) == AgeParts(0, 0, 29)
  {
    DivMod12(MonthIndex(Ymd(2023, 3, 1)) - 1, 2023, 1);
    DivMod12(MonthIndex(Ymd(2023, 3, 1)) - 2, 2023, 0);
  }
}
