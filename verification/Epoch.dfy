/** Seconds since 1970 and the ISO 8601 form of a time (common/epoch.c). */
module Epoch {
  import opened Arithmetic

  const DAY: nat := 86400
  const LAST_SECOND: nat := 253402300799
  const UNKNOWN: int := -0x8000_0000_0000_0000   // LLONG_MIN

  // ----- The calendar

  // leap_year
  function LeapYear(year: int): bool
  {
    if year % 4 != 0 then false
    else if year % 100 != 0 then true
    else if year % 400 != 0 then false
    else true
  }

  // days
  function Days(year: int, month: int): nat
  {
    match month
    case 1 => 31
    case 2 => if LeapYear(year) then 29 else 28
    case 3 => 31
    case 4 => 30
    case 5 => 31
    case 6 => 30
    case 7 => 31
    case 8 => 31
    case 9 => 30
    case 10 => 31
    case 11 => 30
    case 12 => 31
    case _ => 0
  }

  function YearDays(year: int): nat
  {
    if LeapYear(year) then 366 else 365
  }

  function BeforeYear(year: nat): nat
  {
    if year <= 1970 then 0 else BeforeYear(year - 1) + YearDays(year - 1)
  }

  function BeforeMonth(year: nat, month: nat): nat
    decreases year, month
  {
    if month <= 1 then 0 else BeforeMonth(year, month - 1) + Days(year, month - 1)
  }

  datatype Time = Time(year: nat, mon: nat, day: nat, hour: nat, min: nat, sec: nat)

  predicate IsTime(t: Time)
  {
    && 1970 <= t.year <= 9999 && 1 <= t.mon <= 12 && 1 <= t.day <= Days(t.year, t.mon)
    && t.hour <= 23 && t.min <= 59 && t.sec <= 59
  }

  function DayNumber(t: Time): int
  {
    BeforeYear(t.year) + BeforeMonth(t.year, t.mon) + t.day - 1
  }

  function Seconds(t: Time): int
  {
    DAY * DayNumber(t) + 3600 * t.hour + 60 * t.min + t.sec
  }

  // ----- Years and months in order

  lemma {:induction false} YearsRise(a: nat, b: nat)
    requires 1970 <= a < b
    ensures BeforeYear(a) + YearDays(a) <= BeforeYear(b)
    decreases b
  {
    if a + 1 < b {
      YearsRise(a, b - 1);
    }
  }

  lemma MonthStep(year: nat, month: nat)
    requires month >= 2
    ensures BeforeMonth(year, month) == BeforeMonth(year, month - 1) + Days(year, month - 1)
    ensures BeforeMonth(year, 1) == 0
  {
  }

  lemma MonthsOf(year: nat)
    ensures BeforeMonth(year, 2) == 31 && BeforeMonth(year, 3) == 31 + Days(year, 2)
    ensures BeforeMonth(year, 4) == 62 + Days(year, 2) && BeforeMonth(year, 5) == 92 + Days(year, 2)
    ensures BeforeMonth(year, 6) == 123 + Days(year, 2) && BeforeMonth(year, 7) == 153 + Days(year, 2)
    ensures BeforeMonth(year, 8) == 184 + Days(year, 2) && BeforeMonth(year, 9) == 215 + Days(year, 2)
    ensures BeforeMonth(year, 10) == 245 + Days(year, 2) && BeforeMonth(year, 11) == 276 + Days(year, 2)
    ensures BeforeMonth(year, 12) == 306 + Days(year, 2) && BeforeMonth(year, 13) == YearDays(year)
  {
    MonthStep(year, 2);
    MonthStep(year, 3);
    MonthStep(year, 4);
    MonthStep(year, 5);
    MonthStep(year, 6);
    MonthStep(year, 7);
    MonthStep(year, 8);
    MonthStep(year, 9);
    MonthStep(year, 10);
    MonthStep(year, 11);
    MonthStep(year, 12);
    MonthStep(year, 13);
  }

  lemma {:induction false} MonthsRise(year: nat, a: nat, b: nat)
    requires 1 <= a < b
    ensures BeforeMonth(year, a) + Days(year, a) <= BeforeMonth(year, b)
    decreases b
  {
    if a + 1 < b {
      MonthsRise(year, a, b - 1);
    }
  }

  /** The day within the year. */
  lemma DayInYear(year: nat, mon: nat, day: nat)
    requires 1 <= mon <= 12 && 1 <= day <= Days(year, mon)
    ensures BeforeMonth(year, mon) + day <= YearDays(year)
  {
    MonthsRise(year, mon, 13);
    MonthsOf(year);
  }

  // The number of leap years up to a year, as quotients.
  function Leaps(year: nat): int
  {
    year / 4 - year / 100 + year / 400
  }

  lemma Remainder(k: nat, d: nat, r: nat)
    requires d > 0
    ensures (d * k + r) % d == r % d
  {
    assert d * k + r == (k + r / d) * d + r % d by {
      assert r == r / d * d + r % d;
    }
    DivUnique(d * k + r, d, k + r / d, r % d);
  }

  lemma InCycle(q: nat, r: nat)
    ensures (400 * q + r) % 4 == r % 4 && (400 * q + r) % 100 == r % 100 && (400 * q + r) % 400 == r % 400
  {
    Remainder(100 * q, 4, r);
    Remainder(4 * q, 100, r);
    Remainder(q, 400, r);
  }

  lemma LeapsStep(year: nat)
    ensures Leaps(year + 1) == Leaps(year) + if LeapYear(year + 1) then 1 else 0
  {
    var q, r := year / 400, year % 400;
    assert year == 400 * q + r;
    InCycle(q, r);
    InCycle(q, r + 1);
    NextQuotient(year, 4);
    NextQuotient(year, 100);
    NextQuotient(year, 400);
  }

  lemma LeapsOf1969()
    ensures Leaps(1969) == 477 && Leaps(9999) == 2424
  {
  }

  lemma {:induction false} BeforeYearIs(year: nat)
    requires year >= 1970
    ensures BeforeYear(year) == 365 * (year - 1970) + Leaps(year - 1) - 477
    decreases year
  {
    hide LeapYear, Leaps;
    if year == 1970 {
      assert Leaps(1969) == 477 by {
        LeapsOf1969();
      }
    } else {
      BeforeYearIs(year - 1);
      LeapsStep(year - 2);
    }
  }

  /** The first second of the year 10000. */
  lemma EndOf9999()
    ensures DAY * BeforeYear(10000) == LAST_SECOND + 1
  {
    BeforeYearIs(10000);
    LeapsOf1969();
  }

  /** Accepted times lie between the first second of 1970 and the last one of 9999. */
  lemma SecondsInRange(t: Time)
    requires IsTime(t)
    ensures 0 <= Seconds(t) <= LAST_SECOND
  {
    hide Days, YearDays, BeforeYear, BeforeMonth;
    DayInYear(t.year, t.mon, t.day);
    YearsRise(t.year, 10000);
    EndOf9999();
  }

  function SecondOfDay(t: Time): nat
  {
    3600 * t.hour + 60 * t.min + t.sec
  }

  lemma SameSecondOfDay(t: Time, u: Time)
    requires t.min <= 59 && t.sec <= 59 && u.min <= 59 && u.sec <= 59 && SecondOfDay(t) == SecondOfDay(u)
    ensures t.hour == u.hour && t.min == u.min && t.sec == u.sec
  {
  }

  lemma DayNumberNatural(t: Time)
    requires t.day >= 1
    ensures DayNumber(t) >= 0
  {
  }

  lemma SameDayNumber(t: Time, u: Time)
    requires IsTime(t) && IsTime(u) && Seconds(t) == Seconds(u)
    ensures DayNumber(t) == DayNumber(u) && SecondOfDay(t) == SecondOfDay(u)
  {
    hide DayNumber, Days;
    DayNumberNatural(t);
    DayNumberNatural(u);
    DivUnique(Seconds(t), DAY, DayNumber(t), SecondOfDay(t));
    DivUnique(Seconds(u), DAY, DayNumber(u), SecondOfDay(u));
  }

  /** A later year, or a later month of the same year, has only later days. */
  lemma YearsApart(t: Time, u: Time)
    requires IsTime(t) && IsTime(u) && t.year < u.year
    ensures DayNumber(t) < DayNumber(u)
  {
    hide Days, YearDays, BeforeYear, BeforeMonth;
    DayInYear(t.year, t.mon, t.day);
    YearsRise(t.year, u.year);
  }

  lemma MonthsApart(t: Time, u: Time)
    requires IsTime(t) && IsTime(u) && t.year == u.year && t.mon < u.mon
    ensures DayNumber(t) < DayNumber(u)
  {
    hide Days, YearDays, BeforeYear, BeforeMonth;
    MonthsRise(t.year, t.mon, u.mon);
  }

  /** Different times are different numbers of seconds. */
  lemma SecondsDiffer(t: Time, u: Time)
    requires IsTime(t) && IsTime(u) && Seconds(t) == Seconds(u)
    ensures t == u
  {
    hide Days, BeforeYear, BeforeMonth, Seconds, SecondOfDay;
    SameDayNumber(t, u);
    SameSecondOfDay(t, u);
    if t.year < u.year {
      YearsApart(t, u);
    } else if u.year < t.year {
      YearsApart(u, t);
    } else if t.mon < u.mon {
      MonthsApart(t, u);
    } else if u.mon < t.mon {
      MonthsApart(u, t);
    }
  }

  // ----- Digits

  predicate IsDigit(c: char)
  {
    '0' <= c <= '9'
  }

  predicate AllDigits(s: string)
  {
    forall i | 0 <= i < |s| :: IsDigit(s[i])
  }

  function DigitChar(d: nat): (c: char)
    requires d < 10
    ensures IsDigit(c) && c as int - 48 == d
  {
    (d + 48) as char
  }

  function Value(s: string): nat
    requires AllDigits(s)
  {
    if s == [] then 0 else Value(s[..|s| - 1]) * 10 + (s[|s| - 1] as int - 48)
  }

  function Power10(n: nat): nat
  {
    if n == 0 then 1 else 10 * Power10(n - 1)
  }

  function Digits(v: nat, n: nat): (s: string)
    ensures |s| == n
    decreases n
  {
    if n == 0 then [] else Digits(v / 10, n - 1) + [DigitChar(v % 10)]
  }

  lemma {:induction false} ValueOfDigits(v: nat, n: nat)
    requires v < Power10(n)
    ensures AllDigits(Digits(v, n)) && Value(Digits(v, n)) == v
    decreases n
  {
    if n > 0 {
      ValueOfDigits(v / 10, n - 1);
      var s := Digits(v, n);
      assert s[..|s| - 1] == Digits(v / 10, n - 1);
    }
  }

  lemma {:induction false} DigitsOfValue(s: string)
    requires AllDigits(s)
    ensures Digits(Value(s), |s|) == s && Value(s) < Power10(|s|)
    decreases |s|
  {
    if s != [] {
      var t, d := s[..|s| - 1], s[|s| - 1] as int - 48;
      DigitsOfValue(t);
      DivUnique(Value(s), 10, Value(t), d);
      assert DigitChar(d) == s[|s| - 1];
    }
  }

  /** The number in a part of a text, or -1. */
  function Field(text: string, from: nat, n: nat): int
    requires from + n <= |text|
  {
    var s := text[from..from + n];
    if AllDigits(s) then Value(s) else -1
  }

  /** read_number */
  method ReadNumber(text: string, from: nat, n: nat) returns (val: int)
    requires from + n <= |text|
    ensures val == Field(text, from, n)
  {
    ghost var s := text[from..from + n];
    val := 0;
    for i := 0 to n
      invariant AllDigits(s[..i]) && val == Value(s[..i])
    {
      var c := text[from + i];
      assert c == s[i];
      if c < '0' || c > '9' {
        assert !AllDigits(s);
        return -1;
      }
      assert s[..i + 1][..i] == s[..i];
      val := val * 10 + (c as int - 48);
    }
    assert s[..n] == s;
  }

  // How a number reads without its last digits.
  function Shift(v: nat, k: nat): nat
    decreases k
  {
    if k == 0 then v else Shift(v, k - 1) / 10
  }

  lemma {:induction false} ShiftMore(v: nat, k: nat)
    ensures Shift(v / 10, k) == Shift(v, k + 1)
    decreases k
  {
    if k > 0 {
      ShiftMore(v, k - 1);
    }
  }

  lemma {:induction false} DigitsAt(v: nat, n: nat, i: nat)
    requires i < n
    ensures Digits(v, n)[i] == DigitChar(Shift(v, n - 1 - i) % 10)
    decreases n
  {
    if i < n - 1 {
      DigitsAt(v / 10, n - 1, i);
      ShiftMore(v, n - 2 - i);
    }
  }

  lemma {:induction false} ShiftZero(v: nat, k: nat, m: nat)
    requires Shift(v, k) == 0 && k <= m
    ensures Shift(v, m) == 0
    decreases m
  {
    if k < m {
      ShiftZero(v, k, m - 1);
    }
  }

  // The digits of write_number, last one first.
  method ReversedDigits(n: nat, val: nat) returns (buffer: array<char>)
    requires n <= 4
    ensures fresh(buffer) && buffer.Length == 4
    ensures forall k | 0 <= k < n :: buffer[k] == DigitChar(Shift(val, k) % 10)
  {
    buffer := new char[4](_ => '0');
    var v := val;
    var i, j := 0, 0;
    while i < n
      invariant 0 <= i <= n && i == j && v == Shift(val, i)
      invariant forall k | 0 <= k < i :: buffer[k] == DigitChar(Shift(val, k) % 10)
      invariant forall k | i <= k < 4 :: buffer[k] == '0'
    {
      var r := v % 10;
      v := v / 10;
      if v == 0 && r == 0 {
        forall k | i <= k < n
          ensures Shift(val, k) == 0
        {
          ShiftZero(val, i, k);
        }
        break;
      }
      buffer[j] := DigitChar(r);
      j := j + 1;
      i := i + 1;
    }
  }

  /** write_number: the digits, with zeros in front. */
  method WriteNumber(str: array<char>, at: nat, n: nat, val: nat)
    requires n <= 4 && at + n <= str.Length
    modifies str
    ensures str[at..at + n] == Digits(val, n)
    ensures forall k | 0 <= k < str.Length && !(at <= k < at + n) :: str[k] == old(str[k])
  {
    hide DigitChar, Digits, Shift;
    var buffer := ReversedDigits(n, val);
    var i, j := 0, n - 1;
    while j >= 0
      modifies str
      invariant 0 <= i <= n && j == n - 1 - i
      invariant forall k | at <= k < at + i :: str[k] == buffer[n - 1 - (k - at)]
      invariant forall k | 0 <= k < str.Length && !(at <= k < at + i) :: str[k] == old(str[k])
    {
      str[at + i] := buffer[j];
      i := i + 1;
      j := j - 1;
    }
    forall k | 0 <= k < n
      ensures str[at..at + n][k] == Digits(val, n)[k]
    {
      DigitsAt(val, n, k);
      var m, r := at + k, n - 1 - k;
      assert buffer[r] == DigitChar(Shift(val, r) % 10);
      assert str[at..at + n][k] == str[m] == buffer[r];
    }
  }

  // ----- The text of a time

  /** YYYY-MM-DDThh:mm:ss */
  function Text(t: Time): (s: string)
    ensures |s| == 19
  {
    Digits(t.year, 4) + "-" + Digits(t.mon, 2) + "-" + Digits(t.day, 2) + "T"
    + Digits(t.hour, 2) + ":" + Digits(t.min, 2) + ":" + Digits(t.sec, 2)
  }

  predicate Separated(s: string)
    requires |s| == 19
  {
    s[4] == '-' && s[7] == '-' && s[10] == 'T' && s[13] == ':' && s[16] == ':'
  }

  lemma TextParts(t: Time)
    ensures var s := Text(t);
            && Separated(s)
            && s[0..4] == Digits(t.year, 4) && s[5..7] == Digits(t.mon, 2) && s[8..10] == Digits(t.day, 2)
            && s[11..13] == Digits(t.hour, 2) && s[14..16] == Digits(t.min, 2) && s[17..19] == Digits(t.sec, 2)
  {
    hide Digits;
  }

  lemma PartsText(s: string, t: Time)
    requires |s| == 19 && Separated(s)
    requires s[0..4] == Digits(t.year, 4) && s[5..7] == Digits(t.mon, 2) && s[8..10] == Digits(t.day, 2)
    requires s[11..13] == Digits(t.hour, 2) && s[14..16] == Digits(t.min, 2) && s[17..19] == Digits(t.sec, 2)
    ensures s == Text(t)
  {
    hide Digits;
    assert s == s[0..4] + [s[4]] + s[5..7] + [s[7]] + s[8..10] + [s[10]] + s[11..13] + [s[13]] + s[14..16] + [s[16]] + s[17..19];
  }

  /** The field of a text that the digits of a number fill. */
  lemma FieldOfDigits(s: string, from: nat, n: nat, v: nat)
    requires from + n <= |s| && s[from..from + n] == Digits(v, n) && v < Power10(n)
    ensures Field(s, from, n) == v
  {
    ValueOfDigits(v, n);
  }

  lemma DigitsOfField(s: string, from: nat, n: nat)
    requires from + n <= |s| && Field(s, from, n) >= 0
    ensures s[from..from + n] == Digits(Field(s, from, n), n) && Field(s, from, n) < Power10(n)
  {
    DigitsOfValue(s[from..from + n]);
  }

  lemma Powers()
    ensures Power10(2) == 100 && Power10(4) == 10000
  {
    assert Power10(1) == 10;
    assert Power10(3) == 1000;
  }

  /** The text is that of a time which the calendar has. */
  ghost predicate Accepted(s: string)
  {
    exists t :: IsTime(t) && s == Text(t)
  }

  function FieldsOf(s: string): Time
    requires |s| == 19
  {
    var f := (from: nat, n: nat) requires from + n <= 19 => if Field(s, from, n) < 0 then 0 else Field(s, from, n);
    Time(f(0, 4), f(5, 2), f(8, 2), f(11, 2), f(14, 2), f(17, 2))
  }

  lemma DaysAtMost31(year: int, month: int)
    ensures Days(year, month) <= 31
  {
  }

  lemma FieldsAre(t: Time)
    requires IsTime(t)
    ensures Separated(Text(t)) && FieldsOf(Text(t)) == t && t.day <= 31
    ensures Field(Text(t), 0, 4) == t.year && Field(Text(t), 5, 2) == t.mon && Field(Text(t), 8, 2) == t.day
    ensures Field(Text(t), 11, 2) == t.hour && Field(Text(t), 14, 2) == t.min && Field(Text(t), 17, 2) == t.sec
  {
    hide Digits, Text, Field, Days, Power10;
    var s := Text(t);
    DaysAtMost31(t.year, t.mon);
    TextParts(t);
    Powers();
    FieldOfDigits(s, 0, 4, t.year);
    FieldOfDigits(s, 5, 2, t.mon);
    FieldOfDigits(s, 8, 2, t.day);
    FieldOfDigits(s, 11, 2, t.hour);
    FieldOfDigits(s, 14, 2, t.min);
    FieldOfDigits(s, 17, 2, t.sec);
  }

  lemma FieldsText(s: string)
    requires |s| == 19 && Separated(s)
    requires Field(s, 0, 4) >= 0 && Field(s, 5, 2) >= 0 && Field(s, 8, 2) >= 0
    requires Field(s, 11, 2) >= 0 && Field(s, 14, 2) >= 0 && Field(s, 17, 2) >= 0
    ensures s == Text(FieldsOf(s)) && FieldsOf(s).year <= 9999
  {
    hide Digits, Text, Field, Power10;
    Powers();
    DigitsOfField(s, 0, 4);
    DigitsOfField(s, 5, 2);
    DigitsOfField(s, 8, 2);
    DigitsOfField(s, 11, 2);
    DigitsOfField(s, 14, 2);
    DigitsOfField(s, 17, 2);
    PartsText(s, FieldsOf(s));
  }

  /** A text is that of a time exactly if its fields are in their ranges. */
  lemma AcceptedIff(s: string)
    requires |s| == 19
    ensures Accepted(s) <==>
            && Separated(s)
            && 1970 <= Field(s, 0, 4) && 1 <= Field(s, 5, 2) <= 12 && 1 <= Field(s, 8, 2) <= 31
            && Field(s, 8, 2) <= Days(Field(s, 0, 4), Field(s, 5, 2))
            && 0 <= Field(s, 11, 2) <= 23 && 0 <= Field(s, 14, 2) <= 59 && 0 <= Field(s, 17, 2) <= 59
    ensures forall t | IsTime(t) && s == Text(t) :: t == FieldsOf(s)
  {
    hide Digits, Text, Field, Days;
    forall t | IsTime(t) && s == Text(t)
      ensures t == FieldsOf(s)
    {
      FieldsAre(t);
    }
    if Accepted(s) {
      var t :| IsTime(t) && s == Text(t);
      FieldsAre(t);
    }
    if Separated(s) && 1970 <= Field(s, 0, 4) && 1 <= Field(s, 5, 2) <= 12 && 1 <= Field(s, 8, 2) <= 31
       && Field(s, 8, 2) <= Days(Field(s, 0, 4), Field(s, 5, 2))
       && 0 <= Field(s, 11, 2) <= 23 && 0 <= Field(s, 14, 2) <= 59 && 0 <= Field(s, 17, 2) <= 59 {
      FieldsText(s);
      assert IsTime(FieldsOf(s)) && s == Text(FieldsOf(s));
    }
  }

  // ----- The two conversions

  lemma AcceptedHas(s: string)
    requires |s| == 19
    ensures Accepted(s) ==> exists t :: IsTime(t) && s == Text(t)
  {
  }

  lemma BeforeStart(year: nat)
    ensures BeforeYear(1970) == 0 && BeforeMonth(year, 1) == 0
  {
  }

  lemma BeforeNext(year: nat)
    requires year >= 1970
    ensures BeforeYear(year + 1) == BeforeYear(year) + if LeapYear(year) then 366 else 365
  {
  }

  /** epoch_seconds: the seconds of an accepted text, and no other text is accepted. */
  method EpochSeconds(iso: string) returns (secs: int)
    requires |iso| == 19
    ensures Accepted(iso) ==> secs == Seconds(FieldsOf(iso)) && IsTime(FieldsOf(iso)) && iso == Text(FieldsOf(iso))
    ensures !Accepted(iso) ==> secs == UNKNOWN
  {
    hide Digits, Text, Field, Days, YearDays, BeforeYear, BeforeMonth, Accepted, LeapYear;
    AcceptedIff(iso);
    AcceptedHas(iso);
    if iso[4] != '-' || iso[7] != '-' || iso[10] != 'T' || iso[13] != ':' || iso[16] != ':' {
      return UNKNOWN;
    }
    var year := ReadNumber(iso, 0, 4);
    var mon := ReadNumber(iso, 5, 2);
    var day := ReadNumber(iso, 8, 2);
    var hour := ReadNumber(iso, 11, 2);
    var min := ReadNumber(iso, 14, 2);
    var sec := ReadNumber(iso, 17, 2);
    var err := !(1 <= mon <= 12) || !(1 <= day <= 31) || !(0 <= hour <= 23) || !(0 <= min <= 59) || !(0 <= sec <= 59);
    if err || year < 1970 {
      return UNKNOWN;
    }
    if day > Days(year, mon) {
      return UNKNOWN;
    }
    secs := 0;
    BeforeStart(year);
    for i := 1970 to year
      invariant secs == DAY * BeforeYear(i)
    {
      BeforeNext(i);
      if LeapYear(i) {
        secs := secs + DAY * 366;
      } else {
        secs := secs + DAY * 365;
      }
    }
    ghost var years := secs;
    for i := 1 to mon
      invariant secs == years + DAY * BeforeMonth(year, i)
    {
      MonthStep(year, i + 1);
      secs := secs + DAY * Days(year, i);
    }
    secs := secs + DAY * (day - 1);
    secs := secs + 3600 * hour;
    secs := secs + 60 * min;
    secs := secs + sec;
  }

  lemma YearIs(year: nat)
    ensures YearDays(year) == if LeapYear(year) then 366 else 365
  {
  }

  lemma YearAfter()
    ensures BeforeYear(10000) == BeforeYear(9999) + YearDays(9999)
  {
    BeforeNext(9999);
  }

  lemma YearBound(year: nat, seconds: nat, left: nat, s: nat)
    requires 1970 <= year <= 9999 && seconds < LAST_SECOND && seconds == DAY * BeforeYear(year) + left && s <= left
    requires s == DAY * YearDays(year)
    ensures year < 9999
  {
    hide YearDays, BeforeYear;
    if year == 9999 {
      EndOf9999();
      YearAfter();
    }
  }

  // The two search loops of epoch_convert, and what is left for the time of day.
  method SplitSeconds(seconds: nat) returns (year: nat, mon: nat, left: nat)
    requires seconds < LAST_SECOND
    ensures 1970 <= year <= 9999 && 1 <= mon <= 12 && left < DAY * Days(year, mon)
    ensures seconds == DAY * (BeforeYear(year) + BeforeMonth(year, mon)) + left
  {
    hide Days, YearDays, BeforeYear, BeforeMonth, LeapYear;
    left := seconds;
    year := 1970;
    BeforeStart(year);
    while true
      invariant 1970 <= year <= 9999 && seconds == DAY * BeforeYear(year) + left
      decreases left
    {
      YearIs(year);
      var s := if LeapYear(year) then DAY * 366 else DAY * 365;
      if left < s {
        break;
      }
      BeforeNext(year);
      YearBound(year, seconds, left, s);
      left := left - s;
      year := year + 1;
    }
    ghost var inYear := left;
    mon := 1;
    BeforeStart(year);
    MonthsOf(year);
    while true
      invariant 1 <= mon <= 12 && inYear == DAY * BeforeMonth(year, mon) + left
      decreases 13 - mon
    {
      MonthStep(year, mon + 1);
      var s := DAY * Days(year, mon);
      if left < s {
        break;
      }
      left := left - s;
      mon := mon + 1;
    }
  }

  lemma DayFits(left: nat, days: nat)
    requires left < DAY * days
    ensures left / DAY + 1 <= days
  {
  }

  lemma LastTime()
    ensures Days(9999, 12) == 31
    ensures Seconds(Time(9999, 12, 31, 23, 59, 59)) == LAST_SECOND
  {
    hide BeforeYear, BeforeMonth;
    MonthsOf(9999);
    YearAfter();
    EndOf9999();
  }

  // The numbers of epoch_convert.
  method TimeOf(seconds: nat) returns (t: Time)
    ensures IsTime(t) && Seconds(t) == if seconds < LAST_SECOND then seconds else LAST_SECOND
  {
    hide Days, YearDays, BeforeYear, BeforeMonth, LeapYear;
    LastTime();
    if seconds >= LAST_SECOND {
      return Time(9999, 12, 31, 23, 59, 59);
    }
    var year, mon, left := SplitSeconds(seconds);
    var inDay := left % DAY;
    var inHour := inDay % 3600;
    DayFits(left, Days(year, mon));
    return Time(year, mon, left / DAY + 1, inDay / 3600, inHour / 60, inHour % 60);
  }

  lemma IsTimeFits(t: Time)
    requires IsTime(t)
    ensures 0 <= t.year <= 9999 && 0 <= t.mon <= 12 && 0 <= t.day <= 31 && 0 <= t.hour <= 23 && 0 <= t.min <= 59 && 0 <= t.sec <= 59
  {
  }

  /** epoch_convert: the text of the time with this number of seconds, or of the last second of 9999. */
  method EpochConvert(seconds: nat, iso: array<char>) returns (ghost t: Time)
    requires iso.Length >= 19
    modifies iso
    ensures IsTime(t) && Seconds(t) == (if seconds < LAST_SECOND then seconds else LAST_SECOND)
    ensures iso[..19] == Text(t)
    ensures forall k | 19 <= k < iso.Length :: iso[k] == old(iso[k])
  {
    hide Digits, Text, Days, YearDays, BeforeYear, BeforeMonth, LeapYear;
    hide IsTime, Seconds;
    var time := TimeOf(seconds);
    t := time;
    IsTimeFits(time);
    var Time(year, mon, day, hour, min, sec) := time;
    iso[4] := '-';
    iso[7] := '-';
    iso[10] := 'T';
    iso[13] := ':';
    iso[16] := ':';
    WriteNumber(iso, 0, 4, year);
    WriteNumber(iso, 5, 2, mon);
    WriteNumber(iso, 8, 2, day);
    WriteNumber(iso, 11, 2, hour);
    WriteNumber(iso, 14, 2, min);
    WriteNumber(iso, 17, 2, sec);
    ghost var s := iso[..19];
    assert s[0..4] == iso[0..4] && s[5..7] == iso[5..7] && s[8..10] == iso[8..10];
    assert s[11..13] == iso[11..13] && s[14..16] == iso[14..16] && s[17..19] == iso[17..19];
    PartsText(s, t);
  }

  /** From seconds to text and back: the same number, or the last second for one beyond it. */
  method ConvertAndBack(seconds: nat) returns (back: int)
    ensures back == if seconds < LAST_SECOND then seconds else LAST_SECOND
  {
    hide Text, Seconds, IsTime, FieldsOf;
    var iso := new char[19];
    ghost var t := EpochConvert(seconds, iso);
    FieldsAre(t);
    assert Accepted(iso[..19]);
    back := EpochSeconds(iso[..19]);
  }

  /** From an accepted text to seconds and back: the same text. */
  method BackAndConvert(iso: string) returns (again: string)
    requires |iso| == 19 && Accepted(iso)
    ensures again == iso
  {
    hide Text, Seconds, IsTime, FieldsOf;
    var secs := EpochSeconds(iso);
    var buffer := new char[19];
    SecondsInRange(FieldsOf(iso));
    ghost var t := EpochConvert(secs, buffer);
    SecondsDiffer(t, FieldsOf(iso));
    again := buffer[..19];
  }

  // ----- The clock

  /** Months of 31 days alternate with shorter ones, but for July and August, and February has 28 or 29. */
  lemma MonthLengths(year: int, month: int)
    requires 1 <= month <= 12
    ensures Days(year, month) ==
            if month != 2 then 30 + (month + month / 8) % 2
            else if year % 4 == 0 && (year % 100 != 0 || year % 400 == 0) then 29 else 28
  {
  }

  /** A clock with a calendar, one second later. */
  function Tick(t: Time): Time
  {
    if t.sec < 59 then t.(sec := t.sec + 1)
    else if t.min < 59 then t.(sec := 0, min := t.min + 1)
    else if t.hour < 23 then t.(sec := 0, min := 0, hour := t.hour + 1)
    else if t.day < Days(t.year, t.mon) then Time(t.year, t.mon, t.day + 1, 0, 0, 0)
    else if t.mon < 12 then Time(t.year, t.mon + 1, 1, 0, 0, 0)
    else Time(t.year + 1, 1, 1, 0, 0, 0)
  }

  lemma NextDay(t: Time)
    requires IsTime(t) && t.hour == 23 && t.min == 59 && t.sec == 59
    ensures DayNumber(Tick(t)) == DayNumber(t) + 1
  {
    hide Days, BeforeYear, BeforeMonth;
    MonthStep(t.year, t.mon + 1);
    MonthStep(t.year + 1, 2);
    MonthsOf(t.year);
    BeforeNext(t.year);
  }

  lemma WithinDay(t: Time)
    requires IsTime(t) && !(t.hour == 23 && t.min == 59 && t.sec == 59)
    ensures IsTime(Tick(t)) && DayNumber(Tick(t)) == DayNumber(t) && SecondOfDay(Tick(t)) == SecondOfDay(t) + 1
  {
    hide Days, BeforeYear, BeforeMonth;
  }

  lemma FirstOfMonth(year: nat, month: nat)
    requires 1 <= month <= 12
    ensures Days(year, month) >= 28
  {
  }

  lemma TickIsTime(t: Time)
    requires IsTime(t) && t.hour == 23 && t.min == 59 && t.sec == 59
    ensures SecondOfDay(Tick(t)) == 0 && (t.year < 9999 ==> IsTime(Tick(t)))
  {
    hide Days;
    FirstOfMonth(t.year, if t.mon < 12 then t.mon + 1 else 12);
    FirstOfMonth(t.year + 1, 1);
  }

  /** The clock counts the seconds one by one. */
  lemma SecondsTick(t: Time)
    requires IsTime(t)
    ensures Seconds(Tick(t)) == Seconds(t) + 1
    ensures t.year < 9999 ==> IsTime(Tick(t))
  {
    hide Tick, Days, DayNumber;
    if t.hour == 23 && t.min == 59 && t.sec == 59 {
      NextDay(t);
      TickIsTime(t);
    } else {
      WithinDay(t);
    }
    assert Seconds(Tick(t)) == DAY * DayNumber(Tick(t)) + SecondOfDay(Tick(t));
  }

  lemma DigitsOf2038()
    ensures Digits(2038, 4) == "2038" && Digits(1, 2) == "01" && Digits(19, 2) == "19"
  {
    assert Digits(2, 1) == "2" && Digits(20, 2) == "20" && Digits(203, 3) == "203";
  }

  lemma LastInDigits()
    ensures Text(Time(2038, 1, 19, 3, 14, 7)) == "2038-01-19T03:14:07"
  {
    DigitsOf2038();
    assert Digits(3, 2) == "03" && Digits(14, 2) == "14" && Digits(7, 2) == "07";
  }

  lemma ReadsAs2038(t: Time)
    requires IsTime(t) && Text(t) == "2038-01-19T03:14:07"
    ensures t == Time(2038, 1, 19, 3, 14, 7)
  {
    hide BeforeYear, Text, Days, FieldsOf, Field;
    var u := Time(2038, 1, 19, 3, 14, 7);
    MonthLengths(2038, 1);
    LastInDigits();
    FieldsAre(t);
    FieldsAre(u);
  }

  lemma SecondsOf(year: nat, mon: nat, day: nat, hour: nat, min: nat, sec: nat)
    requires year >= 1970
    ensures Seconds(Time(year, mon, day, hour, min, sec)) ==
            DAY * (365 * (year - 1970) + Leaps(year - 1) - 477 + BeforeMonth(year, mon) + day - 1)
            + (3600 * hour + 60 * min + sec)
  {
    hide BeforeYear, BeforeMonth, Leaps;
    BeforeYearIs(year);
  }

  /** The clock starts with 1970, and the last second of 31 bits is in January 2038. */
  lemma FirstAndLast(t: Time)
    requires IsTime(t)
    ensures t == Time(1970, 1, 1, 0, 0, 0) ==> Seconds(t) == 0
    ensures Text(t) == "2038-01-19T03:14:07" ==> Seconds(t) == 0x7FFF_FFFF
  {
    hide BeforeYear, Text, Days, Seconds;
    SecondsOf(t.year, t.mon, t.day, t.hour, t.min, t.sec);
    MonthStep(t.year, 2);
    if Text(t) == "2038-01-19T03:14:07" {
      ReadsAs2038(t);
      assert Leaps(2037) == 494;
    }
    assert Leaps(1969) == 477;
  }
}
