/** Dates as text: `datetime.strptime(text, "%Y-%m-%d")` on the way in, and
    `strftime("%Y%m%d")` / `strftime("%Y%m%dT%H%M%SZ")` on the way out. */
module DateText {
  import opened Wrappers
  import opened Strings
  import opened Dates

  // ---------------------------------------------------------------- strptime("%Y-%m-%d")

  /** The strings the `%m` directive accepts: `1[0-2]`, `0[1-9]` or `[1-9]`. */
  predicate MonthField(t: string) {
    (|t| == 2 && t[0] == '1' && '0' <= t[1] <= '2') ||
    (|t| == 2 && t[0] == '0' && '1' <= t[1] <= '9') ||
    (|t| == 1 && '1' <= t[0] <= '9')
  }

  /** The strings the `%d` directive accepts when nothing follows it:
      `3[01]`, `[12]` and a digit, `0[1-9]`, `[1-9]`, or a space and `[1-9]`. */
  predicate DayField(t: string) {
    (|t| == 2 && t[0] == '3' && '0' <= t[1] <= '1') ||
    (|t| == 2 && '1' <= t[0] <= '2' && IsDigit(t[1])) ||
    (|t| == 2 && t[0] == '0' && '1' <= t[1] <= '9') ||
    (|t| == 1 && '1' <= t[0] <= '9') ||
    (|t| == 2 && t[0] == ' ' && '1' <= t[1] <= '9')
  }

  /** What `int()` makes of a matched month or day field (a leading space is ignored). */
  function FieldValue(t: string): nat
    requires MonthField(t) || DayField(t)
  {
    if t[0] == ' ' then NatOf(t[1..]) else NatOf(t)
  }

  /** `datetime.strptime(s, "%Y-%m-%d")`, None where it raises ValueError: exactly four year digits,
      a dash, a month field, a dash, a day field, nothing after it, and a date that exists. */
  function ParseIsoDate(s: string): (r: Option<Date>)
    ensures r.Some? ==> ValidDate(r.value)
  {
    if |s| < 7 || !AllDigits(s[..4]) || s[4] != '-' then None
    else
      // the month field holds no dash, so it ends at the first dash after position 5
      var k := if s[6] == '-' then 6 else 7;
      if k >= |s| || s[k] != '-' || !MonthField(s[5..k]) || !DayField(s[k + 1..]) then None
      else
        var d := Date(NatOf(s[..4]), FieldValue(s[5..k]), FieldValue(s[k + 1..]));
        if ValidDate(d) then Some(d) else None
  }

  /** `y-m-d` written with zero-padded fields, the canonical form of a start or end cell. */
  function IsoText(y: int, m: int, d: int): (r: string)
    requires 0 <= y <= 9999 && 1 <= m <= 12 && 1 <= d <= 31
    ensures |r| == 10
  {
    Digits(y, 4) + "-" + Digits(m, 2) + "-" + Digits(d, 2)
  }

  lemma TwoDigits(n: nat)
    requires n < 100
    ensures Digits(n, 2) == [DigitChar(n / 10), DigitChar(n % 10)]
  {
    assert Digits(n / 10, 1) == Digits(n / 100, 0) + [DigitChar(n / 10)];
  }

  /** A text made of a four-digit year, a dash, a two-digit month, a dash and a two-digit day
      is accepted exactly when its date exists, and yields that date. */
  lemma ParseIsoZeroPadded(s: string, y: int, m: int, d: int)
    requires 0 <= y <= 9999 && 1 <= m <= 12 && 1 <= d <= 31
    requires |s| == 10 && s[..4] == Digits(y, 4) && s[4] == '-' && s[5..7] == Digits(m, 2) &&
             s[7] == '-' && s[8..] == Digits(d, 2)
    ensures ParseIsoDate(s) == if ValidDate(Date(y, m, d)) then Some(Date(y, m, d)) else None
  {
    TwoDigits(m);
    MonthDigits(m);
    DayDigits(d);
    DigitsValue(y, 4);
    assert s[6] == s[5..7][1] && s[6] != '-';
  }

  /** A zero-padded month is a month field worth that month. */
  lemma MonthDigits(m: int)
    requires 1 <= m <= 12
    ensures MonthField(Digits(m, 2)) && FieldValue(Digits(m, 2)) == m
  {
    TwoDigits(m);
    DigitsValue(m, 2);
  }

  /** A zero-padded day is a day field worth that day. */
  lemma DayDigits(d: int)
    requires 1 <= d <= 31
    ensures DayField(Digits(d, 2)) && FieldValue(Digits(d, 2)) == d
  {
    TwoDigits(d);
    DigitsValue(d, 2);
  }

  /** Reading a zero-padded date back: exactly the existing dates are accepted, with their own fields. */
  lemma ParseIsoText(y: int, m: int, d: int)
    requires 0 <= y <= 9999 && 1 <= m <= 12 && 1 <= d <= 31
    ensures ParseIsoDate(IsoText(y, m, d)) ==
            if ValidDate(Date(y, m, d)) then Some(Date(y, m, d)) else None
  {
    var s := IsoText(y, m, d);
    assert s[..4] == Digits(y, 4);
    assert s[5..7] == Digits(m, 2);
    assert s[8..] == Digits(d, 2);
    ParseIsoZeroPadded(s, y, m, d);
  }

  /** The calendar date of a parsed text round-trips through IsoText. */
  lemma IsoTextRoundTrip(d: Date)
    requires ValidDate(d)
    ensures ParseIsoDate(IsoText(d.year, d.month, d.day)) == Some(d)
  {
    ParseIsoText(d.year, d.month, d.day);
  }

  /** strptime insists that nothing follows the day field ("unconverted data remains"). */
  lemma ParseIsoRejectsTrailing(y: int, m: int, d: int, tail: string)
    requires 0 <= y <= 9999 && 1 <= m <= 12 && 1 <= d <= 31
    requires tail != ""
    ensures ParseIsoDate(IsoText(y, m, d) + tail) == None
  {
    var s := IsoText(y, m, d) + tail;
    TwoDigits(m);
    assert s[..4] == Digits(y, 4);
    assert s[6] == DigitChar(m % 10);
    assert |s[8..]| > 2;
  }

  /** strptime also accepts a one-digit month and a one-digit (or space-padded) day. */
  lemma ParseIsoShortFields(y: int, m: int, d: int, spaced: bool)
    requires 0 <= y <= 9999 && 1 <= m <= 9 && 1 <= d <= 9
    ensures
      var dayText := if spaced then [' ', DigitChar(d)] else [DigitChar(d)];
      ParseIsoDate(Digits(y, 4) + "-" + [DigitChar(m)] + "-" + dayText) ==
        if ValidDate(Date(y, m, d)) then Some(Date(y, m, d)) else None
  {
    var dayText := if spaced then [' ', DigitChar(d)] else [DigitChar(d)];
    var s := Digits(y, 4) + "-" + [DigitChar(m)] + "-" + dayText;
    assert s[..4] == Digits(y, 4);
    assert s[5..6] == [DigitChar(m)];
    assert s[7..] == dayText;
    DigitsValue(y, 4);
    assert NatOf([DigitChar(m)]) == m;
    assert NatOf([DigitChar(d)]) == d;
    if spaced {
      assert dayText[1..] == [DigitChar(d)];
    }
  }

  /** The spellings `%m` accepts for month `m`: two digits, or one digit for January to September. */
  function MonthTexts(m: int): set<string>
    requires 1 <= m <= 12
  {
    {Digits(m, 2)} + (if m < 10 then {[DigitChar(m)]} else {})
  }

  /** The spellings `%d` accepts for day `d` at the end of the text: two digits, or for days 1 to 9
      one digit or a space and one digit. */
  function DayTexts(d: int): set<string>
    requires 1 <= d <= 31
  {
    {Digits(d, 2)} + (if d < 10 then {[DigitChar(d)], [' ', DigitChar(d)]} else {})
  }

  /** `s` spells date `d`: four year digits, a dash, a month spelling, a dash and a day spelling. */
  predicate SpellsDate(s: string, d: Date) {
    0 <= d.year <= 9999 && 1 <= d.month <= 12 && 1 <= d.day <= 31 &&
    exists mt, dt :: mt in MonthTexts(d.month) && dt in DayTexts(d.day) &&
                     s == Digits(d.year, 4) + "-" + mt + "-" + dt
  }

  /** The month fields are exactly the spellings of the months 1 to 12. */
  lemma MonthFieldSpelling(mt: string)
    requires MonthField(mt)
    ensures 1 <= FieldValue(mt) <= 12 && mt in MonthTexts(FieldValue(mt))
  {
    DigitsOfNatOf(mt);
    if |mt| == 2 {
      assert mt[..1] == [mt[0]] && [mt[0]][..0] == [];
    } else {
      assert mt[..0] == [];
      assert mt == [DigitChar(FieldValue(mt))];
    }
  }

  /** The day fields are exactly the spellings of the days 1 to 31. */
  lemma DayFieldSpelling(dt: string)
    requires DayField(dt)
    ensures 1 <= FieldValue(dt) <= 31 && dt in DayTexts(FieldValue(dt))
  {
    if dt[0] == ' ' {
      var u := dt[1..];
      assert u[..0] == [];
      assert dt == [' ', DigitChar(FieldValue(dt))];
    } else {
      DigitsOfNatOf(dt);
      if |dt| == 2 {
        assert dt[..1] == [dt[0]] && [dt[0]][..0] == [];
      } else {
        assert dt[..0] == [];
        assert dt == [DigitChar(FieldValue(dt))];
      }
    }
  }

  /** A spelling of month `m` is a month field worth `m`. */
  lemma MonthTextIsField(m: int, mt: string)
    requires 1 <= m <= 12 && mt in MonthTexts(m)
    ensures MonthField(mt) && FieldValue(mt) == m
  {
    if mt == Digits(m, 2) {
      MonthDigits(m);
    } else {
      assert mt == [DigitChar(m)] && mt[..0] == [];
    }
  }

  /** A spelling of day `d` is a day field worth `d`. */
  lemma DayTextIsField(d: int, dt: string)
    requires 1 <= d <= 31 && dt in DayTexts(d)
    ensures DayField(dt) && FieldValue(dt) == d
  {
    if dt == Digits(d, 2) {
      DayDigits(d);
    } else if dt == [DigitChar(d)] {
      assert dt[..0] == [];
    } else {
      assert dt == [' ', DigitChar(d)] && dt[1..] == [DigitChar(d)] && dt[1..][..0] == [];
    }
  }

  /** Whatever month and day fields follow a four-digit year, the text yields the date they denote
      when it exists, and nothing otherwise. */
  lemma ParseIsoFields(s: string, y: int, mt: string, dt: string)
    requires 0 <= y <= 9999 && MonthField(mt) && DayField(dt)
    requires s == Digits(y, 4) + "-" + mt + "-" + dt
    ensures var d := Date(y, FieldValue(mt), FieldValue(dt));
            ParseIsoDate(s) == if ValidDate(d) then Some(d) else None
  {
    var k := 5 + |mt|;
    assert s[..4] == Digits(y, 4) && s[4] == '-';
    assert s[5..k] == mt && s[k] == '-' && s[k + 1..] == dt;
    if |mt| == 2 {
      assert s[6] == mt[1];
    }
    DigitsValue(y, 4);
  }

  /** `strptime(s, "%Y-%m-%d")` yields `d` exactly when `d` exists and `s` is one of its spellings:
      no other text is accepted, and every accepted text reads as the date it spells. */
  lemma ParseIsoSpelling(s: string, d: Date)
    ensures ParseIsoDate(s) == Some(d) <==> ValidDate(d) && SpellsDate(s, d)
  {
    if ParseIsoDate(s) == Some(d) {
      var k := if s[6] == '-' then 6 else 7;
      var mt, dt := s[5..k], s[k + 1..];
      MonthFieldSpelling(mt);
      DayFieldSpelling(dt);
      DigitsOfNatOf(s[..4]);
      assert s == s[..4] + "-" + mt + "-" + dt;
    }
    if ValidDate(d) && SpellsDate(s, d) {
      var mt, dt :| mt in MonthTexts(d.month) && dt in DayTexts(d.day) &&
                    s == Digits(d.year, 4) + "-" + mt + "-" + dt;
      MonthTextIsField(d.month, mt);
      DayTextIsField(d.day, dt);
      ParseIsoFields(s, d.year, mt, dt);
    }
  }

  /** The digit strings the examples below use. */
  lemma Year2024()
    ensures Digits(2024, 4) == "2024"
  {
    assert Digits(2, 1) == "2";
    assert Digits(20, 2) == "20";
    assert Digits(202, 3) == "202";
  }

  lemma Year0000()
    ensures Digits(0, 4) == "0000"
  {
    assert Digits(0, 1) == "0";
    assert Digits(0, 2) == "00";
    assert Digits(0, 3) == "000";
  }

  lemma MonthTwoDigits()
    ensures Digits(1, 2) == "01" && Digits(5, 2) == "05"
  {
    TwoDigits(1);
    TwoDigits(5);
  }

  lemma DayTwoDigits()
    ensures Digits(10, 2) == "10" && Digits(12, 2) == "12" && Digits(13, 2) == "13"
  {
    TwoDigits(10);
    TwoDigits(12);
    TwoDigits(13);
  }

  /** February 29 parses exactly in leap years (2024 yes, 2023 and 1900 no, 2000 yes). */
  lemma ParseIsoLeapDay(y: int)
    requires 1 <= y <= 9999
    ensures ParseIsoDate(IsoText(y, 2, 29)).Some? <==> IsLeapYear(y)
  {
    ParseIsoText(y, 2, 29);
  }

  lemma ParseIsoAcceptsShortFields()
    ensures ParseIsoDate("2024-5-1") == Some(Date(2024, 5, 1))
  {
    Year2024();
    assert DigitChar(5) == '5' && DigitChar(1) == '1';
    assert Digits(2024, 4) + "-" + [DigitChar(5)] + "-" + [DigitChar(1)] == "2024-5-1";
    ParseIsoShortFields(2024, 5, 1, false);
  }

  lemma ParseIsoRejectsYearZero()
    ensures ParseIsoDate("0000-01-01") == None
  {
    Year0000();
    MonthTwoDigits();
    assert IsoText(0, 1, 1) == "0000-01-01";
    ParseIsoText(0, 1, 1);
  }

  // ---------------------------------------------------------------- strftime

  /** `strftime("%Y%m%d")`: the year in four digits, then month and day in two each.
      Years below 1000 are excluded: `%Y` pads them differently on different platforms. */
  function FormatDate(d: Date): (r: string)
    requires ValidDate(d) && 1000 <= d.year
    ensures |r| == 8
  {
    Digits(d.year, 4) + Digits(d.month, 2) + Digits(d.day, 2)
  }

  /** The rendered date is eight digits whose three fields read back as the year, month and day. */
  lemma FormatDateFields(d: Date)
    requires ValidDate(d) && 1000 <= d.year
    ensures var r := FormatDate(d);
            AllDigits(r) && NatOf(r[..4]) == d.year && NatOf(r[4..6]) == d.month && NatOf(r[6..]) == d.day
  {
    var r := FormatDate(d);
    assert r[..4] == Digits(d.year, 4) && r[4..6] == Digits(d.month, 2) && r[6..] == Digits(d.day, 2);
    DigitsValue(d.year, 4);
    DigitsValue(d.month, 2);
    DigitsValue(d.day, 2);
  }

  /** Distinct dates render differently. */
  lemma FormatDateInjective(a: Date, b: Date)
    requires ValidDate(a) && 1000 <= a.year && ValidDate(b) && 1000 <= b.year
    requires FormatDate(a) == FormatDate(b)
    ensures a == b
  {
    FormatDateFields(a);
    FormatDateFields(b);
  }

  /** Zero-padded numbers of one width sort as text in numeric order. */
  lemma DigitsOrder(x: nat, y: nat, width: nat)
    requires x < y < Pow10(width)
    ensures LexLess(Digits(x, width), Digits(y, width))
  {
    DigitsValue(x, width);
    DigitsValue(y, width);
    DigitOrderIsNumericOrder(Digits(x, width), Digits(y, width));
  }

  /** Rendered dates sort as text in calendar order, so a later date gives a larger DATE value. */
  lemma FormatDateOrder(a: Date, b: Date)
    requires ValidDate(a) && 1000 <= a.year && ValidDate(b) && 1000 <= b.year
    requires Before(a, b)
    ensures LexLess(FormatDate(a), FormatDate(b))
  {
    var ya, ma, da := Digits(a.year, 4), Digits(a.month, 2), Digits(a.day, 2);
    var yb, mb, db := Digits(b.year, 4), Digits(b.month, 2), Digits(b.day, 2);
    assert FormatDate(a) == ya + (ma + da);
    assert FormatDate(b) == yb + (mb + db);
    if a.year < b.year {
      DigitsOrder(a.year, b.year, 4);
      LexLessAppend(ya, yb, ma + da, mb + db);
    } else if a.month < b.month {
      DigitsOrder(a.month, b.month, 2);
      LexLessAppend(ma, mb, da, db);
      LexLessCommonPrefix(ya, ma + da, mb + db);
    } else {
      DigitsOrder(a.day, b.day, 2);
      LexLessCommonPrefix(ma, da, db);
      LexLessCommonPrefix(ya, ma + da, mb + db);
    }
  }

  /** A moment of the UTC clock, as `datetime.utcnow()` returns it (sub-second part not rendered). */
  datatype DateTime = DateTime(date: Date, hour: int, minute: int, second: int)

  predicate ValidDateTime(t: DateTime) {
    ValidDate(t.date) && 0 <= t.hour < 24 && 0 <= t.minute < 60 && 0 <= t.second < 60
  }

  /** `strftime("%Y%m%dT%H%M%SZ")`: the DATE-TIME form of a UTC stamp. */
  function FormatStamp(t: DateTime): (r: string)
    requires ValidDateTime(t) && 1000 <= t.date.year
    ensures |r| == 16 && r[..8] == FormatDate(t.date) && r[8] == 'T' && r[15] == 'Z'
  {
    var r := FormatDate(t.date) + "T" + Digits(t.hour, 2) + Digits(t.minute, 2) + Digits(t.second, 2) + "Z";
    assert r[..8] == FormatDate(t.date);
    r
  }

  /** The stamp's time fields are two digits each and read back as the hour, minute and second. */
  lemma FormatStampFields(t: DateTime)
    requires ValidDateTime(t) && 1000 <= t.date.year
    ensures var r := FormatStamp(t);
            AllDigits(r[9..11]) && NatOf(r[9..11]) == t.hour &&
            AllDigits(r[11..13]) && NatOf(r[11..13]) == t.minute &&
            AllDigits(r[13..15]) && NatOf(r[13..15]) == t.second
  {
    var r := FormatStamp(t);
    var h, m, s := Digits(t.hour, 2), Digits(t.minute, 2), Digits(t.second, 2);
    assert r == FormatDate(t.date) + "T" + h + m + s + "Z";
    assert r[9..11] == h && r[11..13] == m && r[13..15] == s;
    DigitsValue(t.hour, 2);
    DigitsValue(t.minute, 2);
    DigitsValue(t.second, 2);
  }
}
