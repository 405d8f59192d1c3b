/**
 * Calendar dates and clock readings, and the log's timestamp format
 * "%Y-%m-%d %H:%M:%S" written by `strftime` and read back by `strptime`.
 * The parser accepts the fixed-width form the formatter writes and applies
 * the range checks of Python's `datetime` (a four-digit year from 1, a day
 * that exists in its month, seconds up to 59).
 */
module DateTimes {
  import opened Wrappers

  datatype Date = Date(year: int, month: int, day: int)

  datatype Stamp = Stamp(date: Date, hour: int, minute: int, second: int)

  /** Gregorian leap years. */
  predicate IsLeapYear(y: int) {
    (y % 4 == 0 && y % 100 != 0) || y % 400 == 0
  }

  function DaysInMonth(y: int, m: int): (n: int)
    requires 1 <= m <= 12
    ensures 28 <= n <= 31
  {
    if m == 2 then (if IsLeapYear(y) then 29 else 28)
    else if m == 4 || m == 6 || m == 9 || m == 11 then 30
    else 31
  }

  predicate ValidDate(d: Date) {
    1 <= d.year <= 9999 && 1 <= d.month <= 12 && 1 <= d.day <= DaysInMonth(d.year, d.month)
  }

  predicate ValidStamp(t: Stamp) {
    ValidDate(t.date) && 0 <= t.hour < 24 && 0 <= t.minute < 60 && 0 <= t.second < 60
  }

  /** A reading of the clock (`datetime.now()`): its fields are always in range. */
  type DateTime = t: Stamp | ValidStamp(t) witness Stamp(Date(1, 1, 1), 0, 0, 0)

  predicate IsDigit(c: char) {
    '0' <= c <= '9'
  }

  function DigitChar(n: int): (c: char)
    requires 0 <= n < 10
    ensures IsDigit(c)
  {
    ('0' as int + n) as char
  }

  function DigitValue(c: char): (n: int)
    requires IsDigit(c)
    ensures 0 <= n < 10
  {
    c as int - '0' as int
  }

  /** `n` in two decimal digits, zero-padded. */
  function Two(n: int): (s: string)
    requires 0 <= n < 100
    ensures |s| == 2 && IsDigit(s[0]) && IsDigit(s[1])
  {
    [DigitChar(n / 10), DigitChar(n % 10)]
  }

  /** `n` in four decimal digits, zero-padded. */
  function Four(n: int): (s: string)
    requires 0 <= n < 10000
    ensures |s| == 4 && forall k :: 0 <= k < 4 ==> IsDigit(s[k])
  {
    Two(n / 100) + Two(n % 100)
  }

  /** The value of the two digits of `s` at `i`. */
  function Num2(s: string, i: nat): (n: int)
    requires i + 2 <= |s| && IsDigit(s[i]) && IsDigit(s[i + 1])
    ensures 0 <= n < 100
  {
    10 * DigitValue(s[i]) + DigitValue(s[i + 1])
  }

  /** The value of the four digits of `s` at `i`. */
  function Num4(s: string, i: nat): (n: int)
    requires i + 4 <= |s| && forall k :: i <= k < i + 4 ==> IsDigit(s[k])
    ensures 0 <= n < 10000
  {
    100 * Num2(s, i) + Num2(s, i + 2)
  }

  /** `t.strftime("%Y-%m-%d %H:%M:%S")`. */
  function Format(t: DateTime): (s: string)
    ensures |s| == 19
  {
    Four(t.date.year) + "-" + Two(t.date.month) + "-" + Two(t.date.day) + " "
    + Two(t.hour) + ":" + Two(t.minute) + ":" + Two(t.second)
  }

  /** Where the digits of the format stand; the other positions hold '-', ' ' and ':'. */
  predicate IsDigitPosition(k: int) {
    0 <= k < 19 && k != 4 && k != 7 && k != 10 && k != 13 && k != 16
  }

  /** `s` has the shape "DDDD-DD-DD DD:DD:DD". */
  predicate IsLayout(s: string) {
    && |s| == 19
    && (forall k :: 0 <= k < |s| && IsDigitPosition(k) ==> IsDigit(s[k]))
    && s[4] == '-' && s[7] == '-' && s[10] == ' ' && s[13] == ':' && s[16] == ':'
  }

  /** The timestamp whose fields the digits of `s` spell. */
  function Fields(s: string): Stamp
    requires IsLayout(s)
  {
    Stamp(Date(Num4(s, 0), Num2(s, 5), Num2(s, 8)), Num2(s, 11), Num2(s, 14), Num2(s, 17))
  }

  /**
   * `datetime.strptime(s, "%Y-%m-%d %H:%M:%S")`; `None` where it raises
   * `ValueError`. Whatever it accepts is a valid reading that formats back to
   * `s`.
   */
  function ParseStamp(s: string): (r: Option<Stamp>)
    ensures r.Some? ==> ValidStamp(r.value) && Format(r.value) == s
  {
    if IsLayout(s) && ValidStamp(Fields(s)) then
      var t: DateTime := Fields(s);
      assert Format(t) == s by { FormatFields(s); }
      Some(t)
    else
      None
  }

  lemma TwoOfNum2(s: string, i: nat)
    requires i + 2 <= |s| && IsDigit(s[i]) && IsDigit(s[i + 1])
    ensures Two(Num2(s, i)) == s[i..i + 2]
  {
    var a, b := DigitValue(s[i]), DigitValue(s[i + 1]);
    assert (10 * a + b) / 10 == a && (10 * a + b) % 10 == b;
  }

  lemma FourOfNum4(s: string, i: nat)
    requires i + 4 <= |s| && forall k :: i <= k < i + 4 ==> IsDigit(s[k])
    ensures Four(Num4(s, i)) == s[i..i + 4]
  {
    var h, l := Num2(s, i), Num2(s, i + 2);
    assert (100 * h + l) / 100 == h && (100 * h + l) % 100 == l;
    TwoOfNum2(s, i);
    TwoOfNum2(s, i + 2);
    assert s[i..i + 4] == s[i..i + 2] + s[i + 2..i + 4];
  }

  /** Formatting the fields read from a well-laid-out string reproduces it. */
  lemma FormatFields(s: string)
    requires IsLayout(s) && ValidStamp(Fields(s))
    ensures Format(Fields(s)) == s
  {
    FourOfNum4(s, 0);
    TwoOfNum2(s, 5);
    TwoOfNum2(s, 8);
    TwoOfNum2(s, 11);
    TwoOfNum2(s, 14);
    TwoOfNum2(s, 17);
    assert s == s[0..4] + [s[4]] + s[5..7] + [s[7]] + s[8..10] + [s[10]]
              + s[11..13] + [s[13]] + s[14..16] + [s[16]] + s[17..19];
  }

  lemma Num2OfTwo(s: string, i: nat, n: int)
    requires 0 <= n < 100 && i + 2 <= |s| && s[i..i + 2] == Two(n)
    ensures IsDigit(s[i]) && IsDigit(s[i + 1]) && Num2(s, i) == n
  {
    assert s[i] == Two(n)[0] && s[i + 1] == Two(n)[1];
  }

  /** A formatted reading has the layout "DDDD-DD-DD DD:DD:DD" that `strptime` reads. */
  lemma FormatLayout(t: DateTime)
    ensures IsLayout(Format(t))
  {
    var s := Format(t);
    assert s[0..4] == Four(t.date.year) && s[5..7] == Two(t.date.month) && s[8..10] == Two(t.date.day);
    assert s[11..13] == Two(t.hour) && s[14..16] == Two(t.minute) && s[17..19] == Two(t.second);
  }

  /** The strftime/strptime round trip: every clock reading is read back unchanged. */
  lemma ParseFormat(t: DateTime)
    ensures ParseStamp(Format(t)) == Some(t)
  {
    FormatLayout(t);
    FieldsOfFormat(t);
  }

  /** The digits of a formatted reading spell its fields. */
  lemma FieldsOfFormat(t: DateTime)
    requires IsLayout(Format(t))
    ensures Fields(Format(t)) == t
  {
    var s := Format(t);
    var y := t.date.year;
    assert s[0..4] == Four(y);
    assert s[5..7] == Two(t.date.month) && s[8..10] == Two(t.date.day);
    assert s[11..13] == Two(t.hour) && s[14..16] == Two(t.minute) && s[17..19] == Two(t.second);
    Num2OfTwo(s, 0, y / 100);
    Num2OfTwo(s, 2, y % 100);
    Num2OfTwo(s, 5, t.date.month);
    Num2OfTwo(s, 8, t.date.day);
    Num2OfTwo(s, 11, t.hour);
    Num2OfTwo(s, 14, t.minute);
    Num2OfTwo(s, 17, t.second);
  }

  /** A formatted reading holds no '|' and starts and ends with a digit. */
  lemma FormatCharacters(t: DateTime)
    ensures forall k :: 0 <= k < |Format(t)| ==> Format(t)[k] != '|'
    ensures IsDigit(Format(t)[0]) && IsDigit(Format(t)[18])
  {
    var s := Format(t);
    forall k | 0 <= k < 19 ensures s[k] != '|' {
      if IsDigitPosition(k) {
        ParseFormat(t);
      }
    }
    ParseFormat(t);
  }

  /**
   * `strptime` is the exact inverse of `strftime` on valid readings: a string
   * is the format of `t` exactly when it parses to `t`.
   */
  lemma ParsedReadings(s: string)
    ensures forall t: DateTime :: Format(t) == s <==> ParseStamp(s) == Some(t)
  {
    forall t: DateTime
      ensures Format(t) == s <==> ParseStamp(s) == Some(t)
    {
      ParseFormat(t);
    }
  }
}
