/**
  Calendar dates as the attendance form submits them: `datetime.strptime(s, '%Y-%m-%d').date()`
  and its inverse `date.isoformat()`.
 */
module Dates {
  import opened Wrappers
  import opened PyText

  datatype Date = Date(year: int, month: int, day: int)

  predicate IsLeapYear(y: int)
  {
    y % 4 == 0 && (y % 100 != 0 || y % 400 == 0)
  }

  function DaysInMonth(y: int, m: int): (n: int)
    requires 1 <= m <= 12
    ensures 28 <= n <= 31
  {
    if m == 2 then (if IsLeapYear(y) then 29 else 28)
    else if m == 4 || m == 6 || m == 9 || m == 11 then 30
    else 31
  }

  /** A date Python's `datetime.date` can hold (`MINYEAR` is 1, `MAXYEAR` is 9999). */
  predicate IsValid(d: Date)
  {
    && 1 <= d.year <= 9999
    && 1 <= d.month <= 12
    && 1 <= d.day <= DaysInMonth(d.year, d.month)
  }

  /** The `%m` directive, `1[0-2]|0[1-9]|[1-9]`, at the start of `s`: the month and how many
      characters it took. The first alternative that matches is the one kept; since `%m` is
      followed by '-', a shorter alternative could never lead to a match anyway. */
  function MatchMonth(s: string): (r: Option<(int, nat)>)
    ensures r.Some? ==> 1 <= r.value.0 <= 12 && 1 <= r.value.1 <= 2 && r.value.1 <= |s|
  {
    if |s| >= 2 && s[0] == '1' && '0' <= s[1] <= '2' then Some((10 + DigitValue(s[1]), 2))
    else if |s| >= 2 && s[0] == '0' && '1' <= s[1] <= '9' then Some((DigitValue(s[1]), 2))
    else if |s| >= 1 && '1' <= s[0] <= '9' then Some((DigitValue(s[0]), 1))
    else None
  }

  /** The `%d` directive, `3[01]|[12]\d|0[1-9]|[1-9]| [1-9]`, at the start of `s`. It ends the
      pattern, so the first alternative that matches wins and the rest of the text is then
      checked separately ("unconverted data remains"). */
  function MatchDay(s: string): (r: Option<(int, nat)>)
    ensures r.Some? ==> 1 <= r.value.0 <= 31 && 1 <= r.value.1 <= 2 && r.value.1 <= |s|
  {
    if |s| >= 2 && s[0] == '3' && '0' <= s[1] <= '1' then Some((30 + DigitValue(s[1]), 2))
    else if |s| >= 2 && '1' <= s[0] <= '2' && IsDigit(s[1]) then
      Some((10 * DigitValue(s[0]) + DigitValue(s[1]), 2))
    else if |s| >= 2 && s[0] == '0' && '1' <= s[1] <= '9' then Some((DigitValue(s[1]), 2))
    else if |s| >= 1 && '1' <= s[0] <= '9' then Some((DigitValue(s[0]), 1))
    else if |s| >= 2 && s[0] == ' ' && '1' <= s[1] <= '9' then Some((DigitValue(s[1]), 2))
    else None
  }

  /** `datetime.strptime(s, '%Y-%m-%d').date()`; `None` stands for the `ValueError` raised when
      the text does not match the whole pattern or names a day the calendar does not have. */
  function ParseIsoDate(s: string): (r: Option<Date>)
    ensures r.Some? ==> IsValid(r.value)
  {
    if |s| < 5 || !AllDigits(s[..4]) || s[4] != '-' then None
    else
      match MatchMonth(s[5..])
      case None => None
      case Some((month, k)) =>
        var rest := s[5 + k..];
        if |rest| == 0 || rest[0] != '-' then None
        else
          match MatchDay(rest[1..])
          case None => None
          case Some((day, j)) =>
            var date := Date(DigitsValue(s[..4]), month, day);
            if 1 + j == |rest| && IsValid(date) then Some(date) else None
  }

  /** Two decimal digits, zero-padded. */
  function Pad2(n: nat): (r: string)
    requires n < 100
    ensures |r| == 2 && AllDigits(r)
  {
    [DigitChar(n / 10), DigitChar(n % 10)]
  }

  /** Four decimal digits, zero-padded. */
  function Pad4(n: nat): (r: string)
    requires n < 10000
    ensures |r| == 4 && AllDigits(r)
  {
    [DigitChar(n / 1000), DigitChar(n / 100 % 10), DigitChar(n / 10 % 10), DigitChar(n % 10)]
  }

  /** `date.isoformat()`: `YYYY-MM-DD`. */
  function IsoFormat(d: Date): (r: string)
    requires IsValid(d)
    ensures |r| == 10
  {
    Pad4(d.year) + "-" + Pad2(d.month) + "-" + Pad2(d.day)
  }

  lemma Pad4Value(n: nat)
    requires n < 10000
    ensures DigitsValue(Pad4(n)) == n
  {
    var p := Pad4(n);
    assert p[..3][..2][..1] == [DigitChar(n / 1000)];
    assert p[..3][..2] == p[..2];
    assert DigitsValue(p[..1]) == n / 1000;
    assert DigitsValue(p[..2]) == n / 1000 * 10 + n / 100 % 10 == n / 100;
    assert DigitsValue(p[..3]) == n / 100 * 10 + n / 10 % 10 == n / 10;
  }

  /** What `isoformat()` writes, `strptime` with `'%Y-%m-%d'` reads back. */
  lemma ParseIsoFormat(d: Date)
    requires IsValid(d)
    ensures ParseIsoDate(IsoFormat(d)) == Some(d)
  {
    var s := IsoFormat(d);
    assert s[..4] == Pad4(d.year);
    Pad4Value(d.year);
    assert s[5..7] == Pad2(d.month);
    assert MatchMonth(s[5..]) == Some((d.month, 2));
    assert s[7..][1..] == Pad2(d.day);
    assert MatchDay(s[7..][1..]) == Some((d.day, 2));
  }
}
