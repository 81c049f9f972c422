/**
  The due-date normaliser and lateness check of main.py (`correct_date`,
  `is_late`). The clock is a parameter `now`, and the two `datetime.strptime`
  calls are modelled as the matching rules of their format strings
  "%m/%d/%Y %H" and "%m/%d/%Y %H:%M" in Python 2.7.
*/
module Dates {
  import opened Wrappers
  import opened PyStr

  // ---------------------------------------------------------------------
  // correct_date
  // ---------------------------------------------------------------------

  /** A month or day field gets a leading "0" whenever its length is not 2. */
  function FixField(f: string): string
  {
    if |f| != 2 then "0" + f else f
  }

  /** The year-and-time field gets a leading "20" whenever its length is not 10. */
  function FixYear(f: string): string
  {
    if |f| != 10 then "20" + f else f
  }

  /**
    The 12-hour suffix rewrite: with a `p`, drop the last character and add 12
    to the part before the first `:`, keeping only the part after it; with an
    `a` (and no `p`), just drop the last character.
  */
  function FixHour(hour: string): Result<string, PyError>
  {
    if 'p' in hour then PmHour(hour[..|hour| - 1])
    else if 'a' in hour then Ok(hour[..|hour| - 1])
    else Ok(hour)
  }

  /** The `p` branch on the hour without its last character: the number before the first `:`, plus 12. */
  function PmHour(body: string): Result<string, PyError>
  {
    var f := Split(body, ':');
    match ParseInt(f[0])
    case None => Err(ValueError)
    case Some(n) => if |f| < 2 then Err(IndexError) else Ok(IntToString(n + 12) + ":" + f[1])
  }

  /** The year-and-time field after its hour has been rewritten, or the exception raised on the way. */
  function FixTime(field: string): Result<string, PyError>
  {
    var temp := Split(field, ' ');
    if |temp| < 2 then Err(IndexError)
    else
      match FixHour(temp[1])
      case Err(e) => Err(e)
      case Ok(hour) => Ok(Join(temp[1 := hour], ' '))
  }

  /** What `correct_date(date)` returns, or the exception it raises. */
  function NormalizeDate(date: string): Result<string, PyError>
  {
    var parts := Split(date, '/');
    if |parts| < 3 then Err(IndexError)
    else
      match FixTime(FixYear(parts[2]))
      case Err(e) => Err(e)
      case Ok(field) => Ok(Join([FixField(parts[0]), FixField(parts[1]), field] + parts[3..], '/'))
  }

  /** The hour rewrite of `correct_date`, on the local `hour`. */
  method RewriteHour(hour: string) returns (r: Result<string, PyError>)
    ensures r == FixHour(hour)
  {
    var h := hour;
    if 'p' in h {
      var fields := Split(h[..|h| - 1], ':');
      var n := ParseInt(fields[0]);
      if n.None? {
        return Err(ValueError);
      }
      if |fields| < 2 {
        return Err(IndexError);
      }
      h := IntToString(n.value + 12) + ":" + fields[1];
    } else if 'a' in h {
      h := h[..|h| - 1];
    }
    r := Ok(h);
  }

  /** `correct_date`, overwriting the cells of the split date one at a time. */
  method CorrectDate(input: string) returns (r: Result<string, PyError>)
    ensures r == NormalizeDate(input)
  {
    var date := Split(input, '/');
    ghost var parts := date;
    if |date| < 3 {
      return Err(IndexError);
    }
    if |date[0]| != 2 {
      date := date[0 := "0" + date[0]];
    }
    if |date[1]| != 2 {
      date := date[1 := "0" + date[1]];
    }
    if |date[2]| != 10 {
      date := date[2 := "20" + date[2]];
    }
    assert date == [FixField(parts[0]), FixField(parts[1]), FixYear(parts[2])] + parts[3..];
    var temp := Split(date[2], ' ');
    if |temp| < 2 {
      return Err(IndexError);
    }
    var hour := RewriteHour(temp[1]);
    if hour.Err? {
      return Err(hour.error);
    }
    assert FixTime(FixYear(parts[2])) == Ok(Join(temp[1 := hour.value], ' '));
    temp := temp[1 := hour.value];
    date := date[2 := Join(temp, ' ')];
    assert date == [FixField(parts[0]), FixField(parts[1]), Join(temp, ' ')] + parts[3..];
    r := Ok(Join(date, '/'));
  }

  // ---------------------------------------------------------------------
  // Timestamps and the two strptime formats
  // ---------------------------------------------------------------------

  /** A `datetime` value, field by field. */
  datatype DateTime = DateTime(year: int, month: int, day: int, hour: int, minute: int, second: int, micro: int)

  function Fields(t: DateTime): seq<int>
  {
    [t.year, t.month, t.day, t.hour, t.minute, t.second, t.micro]
  }

  predicate LexLess(a: seq<int>, b: seq<int>)
    requires |a| == |b|
  {
    |a| > 0 && (a[0] < b[0] || (a[0] == b[0] && LexLess(a[1..], b[1..])))
  }

  /** `a < b` on datetimes: field by field, the year first. */
  predicate Before(a: DateTime, b: DateTime)
  {
    LexLess(Fields(a), Fields(b))
  }

  lemma {:induction false} LexLessIrreflexive(a: seq<int>)
    ensures !LexLess(a, a)
  {
    if |a| > 0 {
      LexLessIrreflexive(a[1..]);
    }
  }

  lemma {:induction false} LexLessTransitive(a: seq<int>, b: seq<int>, c: seq<int>)
    requires |a| == |b| == |c|
    requires LexLess(a, b) && LexLess(b, c)
    ensures LexLess(a, c)
  {
    if a[0] == b[0] == c[0] {
      LexLessTransitive(a[1..], b[1..], c[1..]);
    }
  }

  lemma {:induction false} LexLessTotal(a: seq<int>, b: seq<int>)
    requires |a| == |b|
    ensures a == b || LexLess(a, b) || LexLess(b, a)
  {
    if |a| > 0 && a[0] == b[0] {
      LexLessTotal(a[1..], b[1..]);
      if a[1..] == b[1..] {
        assert a == [a[0]] + a[1..] && b == [b[0]] + b[1..];
      }
    }
  }

  predicate IsLeapYear(y: int)
  {
    y % 4 == 0 && (y % 100 != 0 || y % 400 == 0)
  }

  function DaysInMonth(year: int, month: int): (n: int)
    ensures 28 <= n <= 31
  {
    if month == 2 then (if IsLeapYear(year) then 29 else 28)
    else if month == 4 || month == 6 || month == 9 || month == 11 then 30
    else 31
  }

  function TwoDigits(t: string): int
    requires |t| == 2
  {
    DigitValue(t[0]) * 10 + DigitValue(t[1])
  }

  /** A month field as `%m` matches it: `1[0-2]`, `0[1-9]` or `[1-9]`. */
  function MonthToken(t: string): (r: Option<int>)
    ensures r.Some? ==> 1 <= r.value <= 12
  {
    if |t| == 1 && '1' <= t[0] <= '9' then Some(DigitValue(t[0]))
    else if |t| == 2 && t[0] == '0' && '1' <= t[1] <= '9' then Some(DigitValue(t[1]))
    else if |t| == 2 && t[0] == '1' && '0' <= t[1] <= '2' then Some(TwoDigits(t))
    else None
  }

  /** A day field as `%d` matches it: `3[01]`, `[12]\d`, `0[1-9]`, `[1-9]` or a space and `[1-9]`. */
  function DayToken(t: string): (r: Option<int>)
    ensures r.Some? ==> 1 <= r.value <= 31
  {
    if |t| == 1 && '1' <= t[0] <= '9' then Some(DigitValue(t[0]))
    else if |t| == 2 && (t[0] == '0' || t[0] == ' ') && '1' <= t[1] <= '9' then Some(DigitValue(t[1]))
    else if |t| == 2 && (t[0] == '1' || t[0] == '2') && IsDigit(t[1]) then Some(TwoDigits(t))
    else if |t| == 2 && t[0] == '3' && (t[1] == '0' || t[1] == '1') then Some(TwoDigits(t))
    else None
  }

  /** An hour field as `%H` matches it: `2[0-3]`, `[01]\d` or `\d`. */
  function HourToken(t: string): (r: Option<int>)
    ensures r.Some? ==> 0 <= r.value <= 23
  {
    if |t| == 1 && IsDigit(t[0]) then Some(DigitValue(t[0]))
    else if |t| == 2 && (t[0] == '0' || t[0] == '1') && IsDigit(t[1]) then Some(TwoDigits(t))
    else if |t| == 2 && t[0] == '2' && '0' <= t[1] <= '3' then Some(TwoDigits(t))
    else None
  }

  /** A minute field as `%M` matches it: `[0-5]\d` or `\d`. */
  function MinuteToken(t: string): (r: Option<int>)
    ensures r.Some? ==> 0 <= r.value <= 59
  {
    if |t| == 1 && IsDigit(t[0]) then Some(DigitValue(t[0]))
    else if |t| == 2 && '0' <= t[0] <= '5' && IsDigit(t[1]) then Some(TwoDigits(t))
    else None
  }

  /** The text after the whitespace: `%H` alone, or `%H:%M`. */
  function ClockTokens(clock: string, withMinute: bool): (r: Option<(int, int)>)
    ensures r.Some? ==> 0 <= r.value.0 <= 23 && 0 <= r.value.1 <= 59
  {
    if !withMinute then
      match HourToken(clock)
      case Some(h) => Some((h, 0))
      case None => None
    else
      match CutAt(clock, ':')
      case None => None
      case Some((h, m)) =>
        match (HourToken(h), MinuteToken(m))
        case (Some(h), Some(m)) => Some((h, m))
        case _ => None
  }

  /** The pieces of a due date that both formats cut out the same way. */
  datatype DueFields = DueFields(month: string, day: string, year: string, clock: string)

  /**
    Cuts `s` as "%m/%d/%Y %H..." does: the month up to the first `/`, the day
    up to the second, four digits of year, at least one whitespace character
    (the space in the format), and the clock text after the whitespace.
  */
  function SplitDue(s: string): (r: Option<DueFields>)
    ensures r.Some? ==> |r.value.year| == 4 && AllDigits(r.value.year)
  {
    match CutAt(s, '/')
    case None => None
    case Some((month, rest)) =>
      match CutAt(rest, '/')
      case None => None
      case Some((day, tail)) =>
        match YearClock(tail)
        case None => None
        case Some((year, clock)) => Some(DueFields(month, day, year, clock))
  }

  /** After the second `/`: four digits of year, at least one whitespace character, the clock text. */
  function YearClock(tail: string): (r: Option<(string, string)>)
    ensures r.Some? ==> |r.value.0| == 4 && AllDigits(r.value.0)
  {
    if |tail| < 4 || !AllDigits(tail[..4]) then None
    else
      var clock := LStrip(tail[4..], Whitespace);
      if |clock| == |tail| - 4 then None
      else Some((tail[..4], clock))
  }

  /** The datetime the matched fields denote, when that date exists. */
  function Assemble(year: int, month: Option<int>, day: Option<int>, hm: Option<(int, int)>): (r: Option<DateTime>)
    requires year <= 9999
    requires month.Some? ==> 1 <= month.value <= 12
    requires day.Some? ==> 1 <= day.value <= 31
    requires hm.Some? ==> 0 <= hm.value.0 <= 23 && 0 <= hm.value.1 <= 59
    ensures r.Some? ==> ValidDue(r.value)
    ensures r.Some? <==> month.Some? && day.Some? && hm.Some? && 1 <= year && day.value <= DaysInMonth(year, month.value)
    ensures r.Some? ==> r.value == DateTime(year, month.value, day.value, hm.value.0, hm.value.1, 0, 0)
  {
    match (month, day, hm)
    case (Some(mo), Some(d), Some(hm)) =>
      if year < 1 || d > DaysInMonth(year, mo) then None
      else Some(DateTime(year, mo, d, hm.0, hm.1, 0, 0))
    case _ => None
  }

  /**
    `datetime.strptime(s, "%m/%d/%Y %H")` (or with `%H:%M` when `withMinute`):
    the whole string must match, and the resulting date must exist.
  */
  function ParseDue(s: string, withMinute: bool): (r: Option<DateTime>)
    ensures r.Some? ==> ValidDue(r.value)
  {
    match SplitDue(s)
    case None => None
    case Some(f) =>
      FourDigitsBound(f.year);
      Assemble(DigitsValue(f.year), MonthToken(f.month), DayToken(f.day), ClockTokens(f.clock, withMinute))
  }

  lemma FourDigitsBound(s: string)
    requires |s| == 4 && AllDigits(s)
    ensures DigitsValue(s) <= 9999
  {
    var a, b, c := s[..3], s[..3][..2], s[..3][..2][..1];
    assert a[..2] == b && b[..1] == c && c[..0] == [];
    assert DigitsValue(c) <= 9;
    assert DigitsValue(b) <= 99;
    assert DigitsValue(a) <= 999;
  }

  /** A timestamp that one of the two formats can produce. */
  predicate ValidDue(t: DateTime)
  {
    && 1 <= t.year <= 9999
    && 1 <= t.month <= 12
    && 1 <= t.day <= DaysInMonth(t.year, t.month)
    && 0 <= t.hour <= 23
    && 0 <= t.minute <= 59
    && t.second == 0 && t.micro == 0
  }

  // ---------------------------------------------------------------------
  // is_late
  // ---------------------------------------------------------------------

  /**
    The due time `is_late` computes: the date is corrected, then the hour-only
    format is tried, and the hour:minute format only when that one fails.
  */
  function DueTime(due: string): (r: Result<DateTime, PyError>)
    ensures r.Ok? ==> ValidDue(r.value)
    ensures r.Ok? <==> NormalizeDate(due).Ok? && (ParseDue(NormalizeDate(due).value, false).Some? || ParseDue(NormalizeDate(due).value, true).Some?)
    ensures r.Ok? ==> ParseDue(NormalizeDate(due).value, false) == Some(r.value) || ParseDue(NormalizeDate(due).value, true) == Some(r.value)
    ensures NormalizeDate(due).Err? ==> r == Err(NormalizeDate(due).error)
    ensures NormalizeDate(due).Ok? && r.Err? ==> r.error == ValueError
  {
    match NormalizeDate(due)
    case Err(e) => Err(e)
    case Ok(c) =>
      match ParseDue(c, false)
      case Some(t) => Ok(t)
      case None =>
        match ParseDue(c, true)
        case Some(t) => Ok(t)
        case None => Err(ValueError)
  }

  const LateMarker := "- Late"

  /** `is_late(due)` at the instant `now`: "- Late" when the due time is strictly before `now`. */
  function IsLate(due: string, now: DateTime): (r: Result<string, PyError>)
    ensures r.Ok? ==> r.value == LateMarker || r.value == ""
  {
    match DueTime(due)
    case Err(e) => Err(e)
    case Ok(t) => Ok(if Before(t, now) then LateMarker else "")
  }

  // ---------------------------------------------------------------------
  // Properties of correct_date
  // ---------------------------------------------------------------------

  lemma IntToStringAvoids(n: int, d: char)
    requires !IsDigit(d) && d != '-'
    ensures d !in IntToString(n)
  {
    var digits := NatToString(if n < 0 then -n else n);
    assert d !in digits by {
      forall i | 0 <= i < |digits| ensures digits[i] != d {
        assert IsDigit(digits[i]);
      }
    }
  }

  /** The rewritten hour holds nothing but characters of the old one, digits, a sign and a colon. */
  lemma FixHourAvoids(hour: string, d: char)
    requires d !in hour && !IsDigit(d) && d != '-' && d != ':'
    requires FixHour(hour).Ok?
    ensures d !in FixHour(hour).value
  {
    if 'p' in hour {
      var body := hour[..|hour| - 1];
      assert d !in body by {
        forall i | 0 <= i < |body| ensures body[i] != d {
          assert body[i] == hour[i];
        }
      }
      SplitAvoids(body, ':', d);
      var f := Split(body, ':');
      IntToStringAvoids(ParseInt(f[0]).value + 12, d);
    } else if 'a' in hour {
      var body := hour[..|hour| - 1];
      assert d !in body by {
        forall i | 0 <= i < |body| ensures body[i] != d {
          assert body[i] == hour[i];
        }
      }
    }
  }

  lemma FixTimeAvoids(field: string, d: char)
    requires d !in field && d != ' ' && !IsDigit(d) && d != '-' && d != ':'
    requires FixTime(field).Ok?
    ensures d !in FixTime(field).value
  {
    var temp := Split(field, ' ');
    SplitAvoids(field, ' ', d);
    FixHourAvoids(temp[1], d);
    JoinAvoids(temp[1 := FixHour(temp[1]).value], ' ', d);
  }

  /**
    The split-and-rejoin keeps the number of `/` parts; the month and the day
    get a leading "0" exactly when their length is not 2, the year-and-time
    part gets "20" exactly when its length is not 10, its second space-separated
    field is the rewritten hour, and every other part comes back unchanged.
  */
  lemma NormalizedParts(date: string)
    requires NormalizeDate(date).Ok?
    ensures var p := Split(date, '/');
      var q := Split(NormalizeDate(date).value, '/');
      && |q| == |p| >= 3
      && q[0] == (if |p[0]| == 2 then p[0] else "0" + p[0])
      && q[1] == (if |p[1]| == 2 then p[1] else "0" + p[1])
      && q[3..] == p[3..]
      && var t := Split(if |p[2]| == 10 then p[2] else "20" + p[2], ' ');
         && |t| >= 2 && FixHour(t[1]).Ok?
         && Split(q[2], ' ') == t[1 := FixHour(t[1]).value]
  {
    var p := Split(date, '/');
    var y := FixYear(p[2]);
    assert '/' !in y by {
      assert '/' !in p[2];
      if |p[2]| != 10 {
        assert y == "20" + p[2];
      }
    }
    var t := Split(y, ' ');
    var h := FixHour(t[1]).value;
    FixTimeAvoids(y, '/');
    var parts := [FixField(p[0]), FixField(p[1]), Join(t[1 := h], ' ')] + p[3..];
    assert forall i :: 0 <= i < |parts| ==> '/' !in parts[i] by {
      assert '/' !in p[0] && '/' !in p[1];
    }
    SplitJoin(parts, '/');
    FixHourAvoids(t[1], ' ');
    SplitJoin(t[1 := h], ' ');
  }

  /**
    A date whose month and day are 2 long, whose year-and-time part is 10 long
    and whose hour carries no `a` or `p` comes back unchanged, as any
    "MM/DD/YYYY HH:MM" string does.
  */
  lemma CanonicalUnchanged(date: string)
    requires var p := Split(date, '/'); |p| >= 3 && |p[0]| == 2 && |p[1]| == 2 && |p[2]| == 10
    requires var t := Split(Split(date, '/')[2], ' '); |t| >= 2 && 'a' !in t[1] && 'p' !in t[1]
    ensures NormalizeDate(date) == Ok(date)
  {
    var p := Split(date, '/');
    var t := Split(p[2], ' ');
    assert t[1 := t[1]] == t;
    JoinSplit(p[2], ' ');
    assert [p[0], p[1], p[2]] + p[3..] == p;
    JoinSplit(date, '/');
  }

  /** A date written as three slash-free parts splits back into them. */
  lemma SplitsIntoThree(m: string, d: string, field: string)
    requires '/' !in m && '/' !in d && '/' !in field
    ensures Split(m + "/" + d + "/" + field, '/') == [m, d, field]
  {
    JoinThree(m, d, field, '/');
    assert m + "/" + d + "/" + field == m + ['/'] + (d + ['/'] + field);
    SplitJoin([m, d, field], '/');
  }

  /** A year-and-time part of two space-free words whose hour has no `a` or `p` comes out of the hour rewrite as it went in. */
  lemma TimeUnchanged(y: string, h: string)
    requires ' ' !in y && ' ' !in h && 'a' !in h && 'p' !in h
    ensures FixTime(y + " " + h) == Ok(y + " " + h)
  {
    assert [y, h][1..] == [h];
    assert y + " " + h == Join([y, h], ' ');
    SplitJoin([y, h], ' ');
    assert [y, h][1 := h] == [y, h];
  }

  /**
    A date spelled month, day and a year-and-time part whose length is not 10
    (an hour without `a` or `p`) gets "20" in front of its year and nothing else.
  */
  lemma YearPrefixed(m: string, d: string, y: string, h: string)
    requires |m| == 2 && |d| == 2 && |y + " " + h| != 10
    requires '/' !in m && '/' !in d && '/' !in y && '/' !in h && ' ' !in y && ' ' !in h
    requires 'a' !in h && 'p' !in h
    ensures NormalizeDate(m + "/" + d + "/" + (y + " " + h)) == Ok(m + "/" + d + "/" + ("20" + y + " " + h))
  {
    var field := y + " " + h;
    var res := "20" + y + " " + h;
    SplitsIntoThree(m, d, field);
    assert FixYear(field) == res;
    TimeUnchanged("20" + y, h);
    assert [m, d, field][3..] == [];
    assert [m, d, res] + [] == [m, d, res];
    JoinThree(m, d, res, '/');
    assert m + ['/'] + (d + ['/'] + res) == m + "/" + d + "/" + res;
  }

  /**
    `correct_date` is not idempotent: when the year-and-time part stays short
    of 10 characters after the first "20", a second call puts another "20" in
    front ("01/02/16 3" becomes "01/02/2016 3" and then "01/02/202016 3").
  */
  lemma NotIdempotent(m: string, d: string, y: string, h: string)
    requires |m| == 2 && |d| == 2 && |y + " " + h| != 10 && |"20" + y + " " + h| != 10
    requires '/' !in m && '/' !in d && '/' !in y && '/' !in h && ' ' !in y && ' ' !in h
    requires 'a' !in h && 'p' !in h
    ensures var once := NormalizeDate(m + "/" + d + "/" + (y + " " + h));
      && once == Ok(m + "/" + d + "/" + ("20" + y + " " + h))
      && NormalizeDate(once.value) == Ok(m + "/" + d + "/" + ("20" + ("20" + y) + " " + h))
      && NormalizeDate(once.value) != once
  {
    YearPrefixed(m, d, y, h);
    var y20 := "20" + y;
    assert "20" + y + " " + h == y20 + " " + h;
    assert '/' !in y20 && ' ' !in y20;
    YearPrefixed(m, d, y20, h);
    var once := m + "/" + d + "/" + (y20 + " " + h);
    var twice := m + "/" + d + "/" + ("20" + y20 + " " + h);
    assert |twice| == |once| + 2;
  }

  /** A `p` hour whose text before the `p` has at least one colon keeps what follows its first colon. */
  lemma PmFields(body: string, n: int)
    requires |Split(body, ':')| >= 2
    requires ParseInt(Split(body, ':')[0]) == Some(n)
    ensures FixHour(body + "p") == Ok(IntToString(n + 12) + ":" + Split(body, ':')[1])
  {
    var hour := body + "p";
    assert FixHour(hour) == PmHour(body) by {
      assert hour[|hour| - 1] == 'p';
      assert hour[..|hour| - 1] == body;
    }
    PmHourOf(body, n);
  }

  lemma PmHourOf(body: string, n: int)
    requires |Split(body, ':')| >= 2
    requires ParseInt(Split(body, ':')[0]) == Some(n)
    ensures PmHour(body) == Ok(IntToString(n + 12) + ":" + Split(body, ':')[1])
  {
  }

  /** "h:mm" with a `p` suffix becomes h + 12, a colon and mm. */
  lemma PmAddsTwelve(h: string, m: string, n: int)
    requires ':' !in h && ':' !in m
    requires ParseInt(h) == Some(n)
    ensures FixHour(h + ":" + m + "p") == Ok(IntToString(n + 12) + ":" + m)
  {
    assert [h, m][1..] == [m];
    assert h + ":" + m == Join([h, m], ':');
    SplitJoin([h, m], ':');
    PmFields(h + ":" + m, n);
  }

  /** Only the part between the first and the second colon survives: "5:30:15p" becomes "17:30". */
  lemma PmDropsSeconds(h: string, m: string, sec: string, n: int)
    requires ':' !in h && ':' !in m && ':' !in sec
    requires ParseInt(h) == Some(n)
    ensures FixHour(h + ":" + m + ":" + sec + "p") == Ok(IntToString(n + 12) + ":" + m)
  {
    var body := h + ":" + m + ":" + sec;
    JoinThree(h, m, sec, ':');
    assert body == Join([h, m, sec], ':');
    SplitJoin([h, m, sec], ':');
    PmFields(body, n);
    assert body + "p" == h + ":" + m + ":" + sec + "p";
  }

  /** A `p` hour with a number but no colon fails on its missing minutes. */
  lemma PmWithoutColonFails(h: string, n: int)
    requires ':' !in h
    requires ParseInt(h) == Some(n)
    ensures FixHour(h + "p") == Err(IndexError)
  {
    var hour := h + "p";
    assert hour[|hour| - 1] == 'p';
    assert hour[..|hour| - 1] == h;
    JoinSplit(h, ':');
  }

  /** The decimal spellings of 12 and 24. */
  lemma TwelveAndTwentyFour()
    ensures IntToString(12) == "12" && IntToString(24) == "24"
  {
    assert DigitChar(1) == '1' && DigitChar(2) == '2' && DigitChar(4) == '4';
    assert NatToString(12) == NatToString(1) + [DigitChar(2)];
    assert NatToString(24) == NatToString(2) + [DigitChar(4)];
  }

  /** "12:MMp" becomes "24:MM": noon in the afternoon is pushed past the last hour of the day. */
  lemma NoonPmBecomesTwentyFour(m: string)
    requires ':' !in m
    ensures FixHour("12:" + m + "p") == Ok("24:" + m)
  {
    var twelve, after := IntToString(12), IntToString(24);
    TwelveAndTwentyFour();
    assert twelve + ":" == "12:" && after + ":" == "24:";
    IntToStringRoundTrip(12);
    PmAddsTwelve(twelve, m, 12);
  }

  /** A clock "24:MM" is refused by the hour-only rule and by the hour:minute rule. */
  lemma ClockTokensTwentyFour(m: string, withMinute: bool)
    ensures ClockTokens("24:" + m, withMinute) == None
  {
    var clock := "24:" + m;
    if withMinute {
      assert clock == "24" + [':'] + m;
      CutAtOf("24", m, ':');
      assert HourToken("24") == None;
    } else {
      assert |clock| > 2;
    }
  }

  /** Neither format reads a due date whose clock is "24:MM". */
  lemma ClockTwentyFourRejected(s: string, m: string, withMinute: bool)
    requires SplitDue(s).Some? && SplitDue(s).value.clock == "24:" + m
    ensures ParseDue(s, withMinute) == None
  {
    var f := SplitDue(s).value;
    FourDigitsBound(f.year);
    ClockTokensTwentyFour(m, withMinute);
  }

  /** A due date whose corrected clock reads "24:MM" makes `is_late` raise `ValueError`. */
  lemma TwentyFourRejected(due: string, m: string)
    requires NormalizeDate(due).Ok?
    requires SplitDue(NormalizeDate(due).value).Some?
    requires SplitDue(NormalizeDate(due).value).value.clock == "24:" + m
    ensures DueTime(due) == Err(ValueError)
  {
    ClockTwentyFourRejected(NormalizeDate(due).value, m, false);
    ClockTwentyFourRejected(NormalizeDate(due).value, m, true);
  }

  /** An `a` hour without a `p` just loses its last character. */
  lemma AmDropsSuffix(h: string)
    requires 'p' !in h
    ensures FixHour(h + "a") == Ok(h)
  {
    var hour := h + "a";
    assert hour[|hour| - 1] == 'a';
    assert hour[..|hour| - 1] == h;
  }

  // ---------------------------------------------------------------------
  // The canonical spelling parses back to the due time
  // ---------------------------------------------------------------------

  function Pad2(n: int): (s: string)
    requires 0 <= n < 100
    ensures |s| == 2 && AllDigits(s) && TwoDigits(s) == n
  {
    [DigitChar(n / 10), DigitChar(n % 10)]
  }

  function Pad4(n: int): (s: string)
    requires 0 <= n < 10000
    ensures |s| == 4 && AllDigits(s) && DigitsValue(s) == n
  {
    var hi := Pad2(n / 100);
    var lo := Pad2(n % 100);
    var digits := hi + lo;
    var d1, d2, d3 := digits[..1], digits[..2], digits[..3];
    assert d1[..0] == [] && d2[..1] == d1 && d3[..2] == d2 && digits[..3] == d3;
    assert d1 == [hi[0]] && d2 == hi && d3 == hi + [lo[0]];
    assert DigitsValue(d1) == DigitValue(hi[0]);
    assert DigitsValue(d2) == TwoDigits(hi);
    assert DigitsValue(d3) == TwoDigits(hi) * 10 + DigitValue(lo[0]);
    assert DigitsValue(digits) == TwoDigits(hi) * 100 + TwoDigits(lo);
    digits
  }

  /** "MM/DD/YYYY HH:MM", zero-padded. */
  function Format(t: DateTime): string
    requires ValidDue(t)
  {
    Pad2(t.month) + "/" + Pad2(t.day) + "/" + Pad4(t.year) + " " + Pad2(t.hour) + ":" + Pad2(t.minute)
  }

  lemma DigitsAvoid(s: string, d: char)
    requires AllDigits(s) && !IsDigit(d)
    ensures d !in s
  {
  }

  lemma LStripLeadingSpace(clock: string)
    requires |clock| > 0 && IsDigit(clock[0])
    ensures LStrip(" " + clock, Whitespace) == clock
  {
    assert (" " + clock)[1..] == clock;
    assert ' ' in Whitespace;
    assert clock[0] !in Whitespace;
  }

  lemma ClockExclusive(clock: string)
    ensures !(ClockTokens(clock, false).Some? && ClockTokens(clock, true).Some?)
  {
    if HourToken(clock).Some? {
      DigitsAvoid(clock, ':');
    }
  }

  lemma YearClockOf(y: string, clock: string)
    requires |y| == 4 && AllDigits(y)
    requires |clock| > 0 && IsDigit(clock[0])
    ensures YearClock(y + " " + clock) == Some((y, clock))
  {
    var tail := y + " " + clock;
    assert tail[..4] == y && tail[4..] == " " + clock;
    LStripLeadingSpace(clock);
  }

  lemma SplitDueOf(a: string, b: string, y: string, clock: string)
    requires '/' !in a && '/' !in b
    requires |y| == 4 && AllDigits(y)
    requires |clock| > 0 && IsDigit(clock[0])
    ensures SplitDue(a + "/" + (b + "/" + (y + " " + clock))) == Some(DueFields(a, b, y, clock))
  {
    var tail := y + " " + clock;
    CutAtOf(a, b + "/" + tail, '/');
    CutAtOf(b, tail, '/');
    YearClockOf(y, clock);
  }

  /** How a canonical string is cut into its fields. */
  lemma SplitFormat(t: DateTime)
    requires ValidDue(t)
    ensures SplitDue(Format(t)) == Some(DueFields(Pad2(t.month), Pad2(t.day), Pad4(t.year), Pad2(t.hour) + ":" + Pad2(t.minute)))
  {
    DigitsAvoid(Pad2(t.month), '/');
    DigitsAvoid(Pad2(t.day), '/');
    var clock := Pad2(t.hour) + ":" + Pad2(t.minute);
    assert Format(t) == Pad2(t.month) + "/" + (Pad2(t.day) + "/" + (Pad4(t.year) + " " + clock));
    SplitDueOf(Pad2(t.month), Pad2(t.day), Pad4(t.year), Pad2(t.hour) + ":" + Pad2(t.minute));
  }

  lemma Pad2Chars(n: int)
    requires 0 <= n < 100
    ensures Pad2(n)[0] as int == '0' as int + n / 10
    ensures Pad2(n)[1] as int == '0' as int + n % 10
  {
  }

  lemma MonthTokenPad2(n: int)
    requires 1 <= n <= 12
    ensures MonthToken(Pad2(n)) == Some(n)
  {
    Pad2Chars(n);
    if n < 10 {
      assert n / 10 == 0 && n % 10 == n;
    } else {
      assert n / 10 == 1 && n % 10 == n - 10;
    }
  }

  lemma DayTokenPad2(n: int)
    requires 1 <= n <= 31
    ensures DayToken(Pad2(n)) == Some(n)
  {
    Pad2Chars(n);
    if n < 10 {
      assert n / 10 == 0 && n % 10 == n;
    } else if n < 20 {
      assert n / 10 == 1;
    } else if n < 30 {
      assert n / 10 == 2;
    } else {
      assert n / 10 == 3 && n % 10 == n - 30;
    }
  }

  lemma HourTokenPad2(n: int)
    requires 0 <= n <= 23
    ensures HourToken(Pad2(n)) == Some(n)
  {
    Pad2Chars(n);
    if n < 10 {
      assert n / 10 == 0;
    } else if n < 20 {
      assert n / 10 == 1;
    } else {
      assert n / 10 == 2 && n % 10 == n - 20;
    }
  }

  lemma MinuteTokenPad2(n: int)
    requires 0 <= n <= 59
    ensures MinuteToken(Pad2(n)) == Some(n)
  {
    Pad2Chars(n);
    assert n / 10 <= 5;
  }

  /** A zero-padded "HH:MM" is read by the hour:minute format only. */
  lemma ClockOf(hour: int, minute: int)
    requires 0 <= hour <= 23 && 0 <= minute <= 59
    ensures ClockTokens(Pad2(hour) + ":" + Pad2(minute), false) == None
    ensures ClockTokens(Pad2(hour) + ":" + Pad2(minute), true) == Some((hour, minute))
  {
    var h, m := Pad2(hour), Pad2(minute);
    DigitsAvoid(h, ':');
    CutAtOf(h, m, ':');
    HourTokenPad2(hour);
    MinuteTokenPad2(minute);
    assert HourToken(h + ":" + m) == None;
  }

  /** The hour:minute format reads a canonical string back as the timestamp it spells. */
  lemma ParseFormat(t: DateTime)
    requires ValidDue(t)
    ensures ParseDue(Format(t), false) == None
    ensures ParseDue(Format(t), true) == Some(t)
  {
    SplitFormat(t);
    MonthTokenPad2(t.month);
    DayTokenPad2(t.day);
    ClockOf(t.hour, t.minute);
  }

  /** `str(h)` for an hour of the day is read back by the hour rule. */
  lemma HourTokenNat(n: int)
    requires 0 <= n <= 23
    ensures HourToken(NatToString(n)) == Some(n)
  {
    if n >= 10 {
      var s := NatToString(n);
      assert s == NatToString(n / 10) + [DigitChar(n % 10)];
      assert NatToString(n / 10) == [DigitChar(n / 10)];
      assert s[0] == DigitChar(n / 10) && s[1] == DigitChar(n % 10);
      if n < 20 {
        assert n / 10 == 1;
      } else {
        assert n / 10 == 2 && n % 10 == n - 20;
      }
    }
  }

  /** `str(h)` of an hour of the day has one or two digits. */
  lemma HourDigits(n: int)
    requires 0 <= n <= 23
    ensures |NatToString(n)| <= 2
  {
    if n >= 10 {
      assert NatToString(n) == NatToString(n / 10) + [DigitChar(n % 10)];
    }
  }

  /** A padded date followed by any clock the chosen rule reads is the timestamp it spells. */
  lemma DueRead(t: DateTime, clock: string, withMinute: bool)
    requires ValidDue(t)
    requires |clock| > 0 && IsDigit(clock[0])
    requires ClockTokens(clock, withMinute) == Some((t.hour, t.minute))
    ensures ParseDue(Pad2(t.month) + "/" + Pad2(t.day) + "/" + Pad4(t.year) + " " + clock, withMinute) == Some(t)
  {
    var a, b, y := Pad2(t.month), Pad2(t.day), Pad4(t.year);
    DigitsAvoid(a, '/');
    DigitsAvoid(b, '/');
    assert a + "/" + b + "/" + y + " " + clock == a + "/" + (b + "/" + (y + " " + clock));
    SplitDueOf(a, b, y, clock);
    MonthTokenPad2(t.month);
    DayTokenPad2(t.day);
  }

  /** An unpadded hour alone ("H" or "HH") is read by the hour-only format only, at minute 0. */
  lemma HourOnlyRead(t: DateTime)
    requires ValidDue(t) && t.minute == 0
    ensures ParseDue(Pad2(t.month) + "/" + Pad2(t.day) + "/" + Pad4(t.year) + " " + NatToString(t.hour), false) == Some(t)
    ensures ParseDue(Pad2(t.month) + "/" + Pad2(t.day) + "/" + Pad4(t.year) + " " + NatToString(t.hour), true) == None
  {
    HourTokenNat(t.hour);
    DueRead(t, NatToString(t.hour), false);
    FormatsExclusive(Pad2(t.month) + "/" + Pad2(t.day) + "/" + Pad4(t.year) + " " + NatToString(t.hour));
  }

  /** A zero-padded hour alone ("HH") is read by the hour-only format only, at minute 0. */
  lemma PaddedHourRead(t: DateTime)
    requires ValidDue(t) && t.minute == 0
    ensures ParseDue(Pad2(t.month) + "/" + Pad2(t.day) + "/" + Pad4(t.year) + " " + Pad2(t.hour), false) == Some(t)
    ensures ParseDue(Pad2(t.month) + "/" + Pad2(t.day) + "/" + Pad4(t.year) + " " + Pad2(t.hour), true) == None
  {
    HourTokenPad2(t.hour);
    DueRead(t, Pad2(t.hour), false);
    FormatsExclusive(Pad2(t.month) + "/" + Pad2(t.day) + "/" + Pad4(t.year) + " " + Pad2(t.hour));
  }

  /** The clock "H:MM" or "HH:MM" is read by the hour:minute rule only. */
  lemma UnpaddedClockTokens(hour: int, minute: int)
    requires 0 <= hour <= 23 && 0 <= minute <= 59
    ensures ClockTokens(NatToString(hour) + ":" + Pad2(minute), true) == Some((hour, minute))
    ensures ClockTokens(NatToString(hour) + ":" + Pad2(minute), false) == None
  {
    var h, m := NatToString(hour), Pad2(minute);
    DigitsAvoid(h, ':');
    CutAtOf(h, m, ':');
    HourTokenNat(hour);
    MinuteTokenPad2(minute);
    assert HourToken(h + ":" + m) == None;
  }

  /** An unpadded hour with minutes ("H:MM" or "HH:MM") is read by the hour:minute format only. */
  lemma UnpaddedClockRead(t: DateTime)
    requires ValidDue(t)
    ensures ParseDue(Pad2(t.month) + "/" + Pad2(t.day) + "/" + Pad4(t.year) + " " + (NatToString(t.hour) + ":" + Pad2(t.minute)), false) == None
    ensures ParseDue(Pad2(t.month) + "/" + Pad2(t.day) + "/" + Pad4(t.year) + " " + (NatToString(t.hour) + ":" + Pad2(t.minute)), true) == Some(t)
  {
    var clock := NatToString(t.hour) + ":" + Pad2(t.minute);
    UnpaddedClockTokens(t.hour, t.minute);
    DueRead(t, clock, true);
    FormatsExclusive(Pad2(t.month) + "/" + Pad2(t.day) + "/" + Pad4(t.year) + " " + clock);
  }

  /** `correct_date` leaves a canonical string alone. */
  lemma FormatNormal(t: DateTime)
    requires ValidDue(t)
    ensures NormalizeDate(Format(t)) == Ok(Format(t))
  {
    var hm := Pad2(t.hour) + ":" + Pad2(t.minute);
    FormatDateFields(t);
    FormatClockFields(t);
    assert Split(Split(Format(t), '/')[2], ' ')[1] == hm;
    CanonicalUnchanged(Format(t));
  }

  /** The `/`-fields of a formatted instant: month, day, and year with the clock. */
  lemma FormatDateFields(t: DateTime)
    requires ValidDue(t)
    ensures Split(Format(t), '/') == [Pad2(t.month), Pad2(t.day), Pad4(t.year) + " " + (Pad2(t.hour) + ":" + Pad2(t.minute))]
  {
    var a, b := Pad2(t.month), Pad2(t.day);
    var y, hm := Pad4(t.year), Pad2(t.hour) + ":" + Pad2(t.minute);
    var c := y + " " + hm;
    DigitsAvoid(a, '/');
    DigitsAvoid(b, '/');
    DigitsAvoid(y, '/');
    DigitsAvoid(Pad2(t.hour), '/');
    DigitsAvoid(Pad2(t.minute), '/');
    assert '/' !in c;
    JoinThree(a, b, c, '/');
    assert Format(t) == a + ['/'] + (b + ['/'] + c);
    SplitJoin([a, b, c], '/');
  }

  /** The year-and-time field of a formatted instant splits into the year and an hour without `a` or `p`. */
  lemma FormatClockFields(t: DateTime)
    requires ValidDue(t)
    ensures Split(Pad4(t.year) + " " + (Pad2(t.hour) + ":" + Pad2(t.minute)), ' ') == [Pad4(t.year), Pad2(t.hour) + ":" + Pad2(t.minute)]
    ensures 'a' !in Pad2(t.hour) + ":" + Pad2(t.minute) && 'p' !in Pad2(t.hour) + ":" + Pad2(t.minute)
  {
    var y, hm := Pad4(t.year), Pad2(t.hour) + ":" + Pad2(t.minute);
    DigitsAvoid(y, ' ');
    DigitsAvoid(Pad2(t.hour), ' ');
    DigitsAvoid(Pad2(t.minute), ' ');
    DigitsAvoid(Pad2(t.hour), 'a');
    DigitsAvoid(Pad2(t.minute), 'a');
    DigitsAvoid(Pad2(t.hour), 'p');
    DigitsAvoid(Pad2(t.minute), 'p');
    assert ' ' !in hm && 'a' !in hm && 'p' !in hm;
    assert [y, hm][1..] == [hm];
    assert y + " " + hm == Join([y, hm], ' ');
    SplitJoin([y, hm], ' ');
  }


  /** `correct_date` leaves a canonical string alone, and `is_late` reads it back as the timestamp it spells. */
  lemma FormatRoundTrip(t: DateTime)
    requires ValidDue(t)
    ensures NormalizeDate(Format(t)) == Ok(Format(t))
    ensures DueTime(Format(t)) == Ok(t)
  {
    FormatNormal(t);
    ParseFormat(t);
  }

  // ---------------------------------------------------------------------
  // Properties of is_late
  // ---------------------------------------------------------------------

  /** The two formats never both accept a string, so trying hour-only first decides nothing by itself. */
  lemma FormatsExclusive(c: string)
    ensures !(ParseDue(c, false).Some? && ParseDue(c, true).Some?)
  {
    if SplitDue(c).Some? {
      ClockExclusive(SplitDue(c).value.clock);
    }
  }

  /** Late exactly when the due time is strictly before `now`; not late when they are equal. */
  lemma LateIffStrictlyBefore(due: string, now: DateTime)
    requires DueTime(due).Ok?
    ensures IsLate(due, now) == Ok(LateMarker) <==> Before(DueTime(due).value, now)
    ensures IsLate(due, now) == Ok("") <==> !Before(DueTime(due).value, now)
    ensures DueTime(due).value == now ==> IsLate(due, now) == Ok("")
  {
    LexLessIrreflexive(Fields(now));
  }

  /** Once late, a due date stays late as the clock moves on. */
  lemma LateStaysLate(due: string, now: DateTime, later: DateTime)
    requires IsLate(due, now) == Ok(LateMarker)
    requires !Before(later, now)
    ensures IsLate(due, later) == Ok(LateMarker)
  {
    var t := DueTime(due).value;
    LexLessTotal(Fields(now), Fields(later));
    if Fields(now) != Fields(later) {
      LexLessTransitive(Fields(t), Fields(now), Fields(later));
    }
  }

  /** For a canonical string, `is_late` is the strict comparison of the timestamp it spells with `now`. */
  lemma CanonicalLateness(t: DateTime, now: DateTime)
    requires ValidDue(t)
    ensures IsLate(Format(t), now) == Ok(if Before(t, now) then LateMarker else "")
  {
    FormatRoundTrip(t);
  }

  /** A year in this century is written as "20" followed by its last two digits. */
  lemma CenturyPrefix(year: int)
    requires 2000 <= year <= 2099
    ensures Pad4(year) == "20" + Pad2(year - 2000)
  {
    assert year / 100 == 20 && year % 100 == year - 2000;
    assert DigitChar(2) == '2' && DigitChar(0) == '0';
    assert Pad2(20) == "20";
  }

  /** `correct_date` puts the century in front of a two-digit year of this century. */
  lemma ShortYearNormal(a: string, b: string, year: int, clock: string)
    requires |a| == 2 && |b| == 2 && '/' !in a && '/' !in b
    requires 2000 <= year <= 2099
    requires |clock| <= 5 && '/' !in clock && ' ' !in clock && 'a' !in clock && 'p' !in clock
    ensures NormalizeDate(a + "/" + b + "/" + (Pad2(year - 2000) + " " + clock)) == Ok(a + "/" + b + "/" + Pad4(year) + " " + clock)
  {
    var yy := Pad2(year - 2000);
    DigitsAvoid(yy, '/');
    DigitsAvoid(yy, ' ');
    YearPrefixed(a, b, yy, clock);
    CenturyPrefix(year);
    assert a + "/" + b + "/" + ("20" + yy + " " + clock) == a + "/" + b + "/" + Pad4(year) + " " + clock;
  }

  /** The short spelling "MM/DD/YY H": `correct_date` adds the century and `is_late` compares the hour on the hour. */
  lemma ShortHourLateness(t: DateTime, now: DateTime)
    requires ValidDue(t) && t.minute == 0 && 2000 <= t.year <= 2099
    ensures DueTime(Pad2(t.month) + "/" + Pad2(t.day) + "/" + (Pad2(t.year - 2000) + " " + NatToString(t.hour))) == Ok(t)
    ensures IsLate(Pad2(t.month) + "/" + Pad2(t.day) + "/" + (Pad2(t.year - 2000) + " " + NatToString(t.hour)), now)
         == Ok(if Before(t, now) then LateMarker else "")
  {
    var h := NatToString(t.hour);
    HourDigits(t.hour);
    DigitsAvoid(Pad2(t.month), '/');
    DigitsAvoid(Pad2(t.day), '/');
    DigitsAvoid(h, '/');
    DigitsAvoid(h, ' ');
    DigitsAvoid(h, 'a');
    DigitsAvoid(h, 'p');
    ShortYearNormal(Pad2(t.month), Pad2(t.day), t.year, h);
    HourOnlyRead(t);
  }

  /** The short spelling "MM/DD/YY H:MM": `correct_date` adds the century and `is_late` compares to the minute. */
  lemma ShortClockLateness(t: DateTime, now: DateTime)
    requires ValidDue(t) && 2000 <= t.year <= 2099
    ensures DueTime(Pad2(t.month) + "/" + Pad2(t.day) + "/" + (Pad2(t.year - 2000) + " " + (NatToString(t.hour) + ":" + Pad2(t.minute)))) == Ok(t)
    ensures IsLate(Pad2(t.month) + "/" + Pad2(t.day) + "/" + (Pad2(t.year - 2000) + " " + (NatToString(t.hour) + ":" + Pad2(t.minute))), now)
         == Ok(if Before(t, now) then LateMarker else "")
  {
    var h, m := NatToString(t.hour), Pad2(t.minute);
    HourDigits(t.hour);
    DigitsAvoid(Pad2(t.month), '/');
    DigitsAvoid(Pad2(t.day), '/');
    DigitsAvoid(h, '/');
    DigitsAvoid(h, ' ');
    DigitsAvoid(h, 'a');
    DigitsAvoid(h, 'p');
    DigitsAvoid(m, '/');
    DigitsAvoid(m, ' ');
    DigitsAvoid(m, 'a');
    DigitsAvoid(m, 'p');
    ShortYearNormal(Pad2(t.month), Pad2(t.day), t.year, h + ":" + m);
    UnpaddedClockRead(t);
  }
}
