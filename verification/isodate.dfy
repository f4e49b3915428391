/**
 * Calendar dates as Python's `datetime.date` sees them, their `YYYY-MM-DD`
 * text form, and day counting as in `date.toordinal()`, which is what the
 * subtraction of two dates measures.
 */
module IsoDate {
  import opened Wrappers
  import opened Text

  datatype Date = Date(year: int, month: int, day: int)

  predicate IsLeap(y: int)
  {
    y % 4 == 0 && (y % 100 != 0 || y % 400 == 0)
  }

  function DaysInYear(y: int): int
  {
    if IsLeap(y) then 366 else 365
  }

  function DaysInMonth(y: int, m: int): int
    requires 1 <= m <= 12
  {
    if m == 2 then (if IsLeap(y) then 29 else 28)
    else if m == 4 || m == 6 || m == 9 || m == 11 then 30
    else 31
  }

  /** The range `datetime.date` accepts: years 1 to 9999 and real days of real months. */
  predicate Valid(d: Date)
  {
    && 1 <= d.year <= 9999
    && 1 <= d.month <= 12
    && 1 <= d.day <= DaysInMonth(d.year, d.month)
  }

  /** Days in the years before `y` (proleptic Gregorian calendar). */
  function DaysBeforeYear(y: int): int
    requires y >= 1
  {
    var p := y - 1;
    p * 365 + p / 4 - p / 100 + p / 400
  }

  /** Days in the months of year `y` before month `m`. */
  function DaysBeforeMonth(y: int, m: int): int
    requires 1 <= m <= 12
  {
    [0, 31, 59, 90, 120, 151, 181, 212, 243, 273, 304, 334][m - 1]
      + (if m > 2 && IsLeap(y) then 1 else 0)
  }

  /** Day number of `d`, 0001-01-01 being day 1 (Python's `date.toordinal()`). */
  function Ordinal(d: Date): int
    requires Valid(d)
  {
    DaysBeforeYear(d.year) + DaysBeforeMonth(d.year, d.month) + d.day
  }

  /** `(a - b).days` for two dates: whole days from `b` to `a`, negative when `a` is earlier. */
  function DaysBetween(a: Date, b: Date): (n: int)
    requires Valid(a) && Valid(b)
    ensures n == 0 <==> a == b
    ensures n < 0 <==> Precedes(a, b)
  {
    OrdinalOrder(a, b);
    OrdinalOrder(b, a);
    Ordinal(a) - Ordinal(b)
  }

  /** Calendar order: year first, then month, then day. */
  predicate Precedes(a: Date, b: Date)
  {
    || a.year < b.year
    || (a.year == b.year && a.month < b.month)
    || (a.year == b.year && a.month == b.month && a.day < b.day)
  }

  lemma DivStep4(p: int)
    requires p >= 0
    ensures (p + 1) / 4 == p / 4 + (if (p + 1) % 4 == 0 then 1 else 0)
  {
  }

  lemma DivStep100(p: int)
    requires p >= 0
    ensures (p + 1) / 100 == p / 100 + (if (p + 1) % 100 == 0 then 1 else 0)
  {
  }

  lemma DivStep400(p: int)
    requires p >= 0
    ensures (p + 1) / 400 == p / 400 + (if (p + 1) % 400 == 0 then 1 else 0)
  {
  }

  /** Every fourth century year is a century year, and every century year a fourth year. */
  lemma CenturyDivides(y: int)
    ensures y % 400 == 0 ==> y % 100 == 0
    ensures y % 100 == 0 ==> y % 4 == 0
  {
    if y % 400 == 0 {
      var k := y / 400;
      assert y == 400 * k;
      assert y == 100 * (4 * k) + 0;
    }
    if y % 100 == 0 {
      var k := y / 100;
      assert y == 100 * k;
      assert y == 4 * (25 * k) + 0;
    }
  }

  /** A year adds its own length to the days before the next one. */
  lemma DaysBeforeYearStep(y: int)
    requires y >= 1
    ensures DaysBeforeYear(y + 1) == DaysBeforeYear(y) + DaysInYear(y)
  {
    var p := y - 1;
    DivStep4(p);
    DivStep100(p);
    DivStep400(p);
    CenturyDivides(y);
    var a := if y % 4 == 0 then 1 else 0;
    var b := if y % 100 == 0 then 1 else 0;
    var c := if y % 400 == 0 then 1 else 0;
    assert DaysBeforeYear(y + 1) == DaysBeforeYear(y) + 365 + a - b + c;
    assert DaysInYear(y) == 365 + a - b + c;
  }

  lemma {:induction false} DaysBeforeYearMonotone(y: int, y': int)
    requires 1 <= y < y'
    ensures DaysBeforeYear(y) + DaysInYear(y) <= DaysBeforeYear(y')
    decreases y' - y
  {
    DaysBeforeYearStep(y);
    if y + 1 < y' {
      DaysBeforeYearMonotone(y + 1, y');
    }
  }

  lemma MonthEndsBeforeNext(y: int, m: int, m': int)
    requires 1 <= m < m' <= 12
    ensures DaysBeforeMonth(y, m) + DaysInMonth(y, m) <= DaysBeforeMonth(y, m')
  {
  }

  lemma MonthEndsInYear(y: int, m: int)
    requires 1 <= m <= 12
    ensures DaysBeforeMonth(y, m) + DaysInMonth(y, m) <= DaysInYear(y)
  {
  }

  /** Day numbers strictly increase along the calendar. */
  lemma OrdinalIncreasing(a: Date, b: Date)
    requires Valid(a) && Valid(b) && Precedes(a, b)
    ensures Ordinal(a) < Ordinal(b)
  {
    if a.year < b.year {
      MonthEndsInYear(a.year, a.month);
      DaysBeforeYearMonotone(a.year, b.year);
    } else if a.month < b.month {
      MonthEndsBeforeNext(a.year, a.month, b.month);
    }
  }

  /** Day numbers tell dates apart and order them as the calendar does. */
  lemma OrdinalOrder(a: Date, b: Date)
    requires Valid(a) && Valid(b)
    ensures Ordinal(a) <= Ordinal(b) <==> !Precedes(b, a)
    ensures Ordinal(a) == Ordinal(b) <==> a == b
  {
    if Precedes(a, b) {
      OrdinalIncreasing(a, b);
    } else if Precedes(b, a) {
      OrdinalIncreasing(b, a);
    }
  }

  // ---------------------------------------------------------------- digits

  predicate IsDigit(c: char)
  {
    '0' <= c <= '9'
  }

  predicate AllDigits(s: string)
  {
    forall i :: 0 <= i < |s| ==> IsDigit(s[i])
  }

  function DigitValue(c: char): int
  {
    c as int - '0' as int
  }

  function Digit(n: int): char
    requires 0 <= n <= 9
  {
    (n + '0' as int) as char
  }

  function Pow10(n: nat): (p: int)
    ensures p >= 1
  {
    if n == 0 then 1 else 10 * Pow10(n - 1)
  }

  lemma MulMonotone(a: int, b: int, p: int)
    requires a <= b && p >= 0
    ensures a * p <= b * p
  {
  }

  lemma MulSucc(a: int, p: int)
    ensures (a + 1) * p == a * p + p
  {
  }

  /** The number a decimal digit string denotes, most significant digit first. */
  function DigitsValue(s: string): (v: int)
    requires AllDigits(s)
    ensures 0 <= v < Pow10(|s|)
  {
    if |s| == 0 then 0
    else
      var rest := DigitsValue(s[1..]);
      var p := Pow10(|s| - 1);
      MulMonotone(0, DigitValue(s[0]), p);
      MulMonotone(DigitValue(s[0]), 9, p);
      DigitValue(s[0]) * p + rest
  }

  /** A smaller leading digit makes a smaller number, whatever the digits after it. */
  lemma LeadingDigitDecides(s: string, t: string)
    requires |s| == |t| > 0 && AllDigits(s) && AllDigits(t) && s[0] < t[0]
    ensures DigitsValue(s) < DigitsValue(t)
  {
    var p := Pow10(|s| - 1);
    var c, e := DigitValue(s[0]), DigitValue(t[0]);
    var cp, ep := c * p, e * p;
    assert DigitsValue(s) == cp + DigitsValue(s[1..]);
    assert DigitsValue(t) == ep + DigitsValue(t[1..]);
    assert DigitsValue(s[1..]) < p && DigitsValue(t[1..]) >= 0;
    MulMonotone(c + 1, e, p);
    MulSucc(c, p);
    assert cp + p <= ep;
  }

  /** On digit strings of one length, string order is numeric order. */
  lemma {:induction false} LexLeDigits(s: string, t: string)
    requires |s| == |t| && AllDigits(s) && AllDigits(t)
    ensures LexLe(s, t) <==> DigitsValue(s) <= DigitsValue(t)
    decreases |s|
  {
    if |s| > 0 {
      if s[0] < t[0] {
        LeadingDigitDecides(s, t);
      } else if t[0] < s[0] {
        LeadingDigitDecides(t, s);
      } else {
        LexLeDigits(s[1..], t[1..]);
        assert DigitsValue(s) - DigitsValue(t) == DigitsValue(s[1..]) - DigitsValue(t[1..]);
      }
    }
  }

  lemma DigitsValue2(s: string)
    requires |s| == 2 && AllDigits(s)
    ensures DigitsValue(s) == 10 * DigitValue(s[0]) + DigitValue(s[1])
  {
    assert s[1..][1..] == [];
    assert Pow10(1) == 10;
  }

  lemma DigitsValue4(s: string)
    requires |s| == 4 && AllDigits(s)
    ensures DigitsValue(s) == 1000 * DigitValue(s[0]) + 100 * DigitValue(s[1]) + 10 * DigitValue(s[2]) + DigitValue(s[3])
  {
    assert s[1..][1..][1..][1..] == [];
    assert Pow10(3) == 1000;
    DigitsValue2(s[2..]);
  }

  function Pad2(n: int): (s: string)
    requires 0 <= n <= 99
    ensures |s| == 2 && AllDigits(s)
  {
    [Digit(n / 10), Digit(n % 10)]
  }

  function Pad4(n: int): (s: string)
    requires 0 <= n <= 9999
    ensures |s| == 4 && AllDigits(s)
  {
    [Digit(n / 1000), Digit(n / 100 % 10), Digit(n / 10 % 10), Digit(n % 10)]
  }

  lemma Pad2Value(n: int)
    requires 0 <= n <= 99
    ensures DigitsValue(Pad2(n)) == n
  {
    DigitsValue2(Pad2(n));
  }

  lemma Pad4Value(n: int)
    requires 0 <= n <= 9999
    ensures DigitsValue(Pad4(n)) == n
  {
    DigitsValue4(Pad4(n));
    var a, b, c := n / 1000, n / 100, n / 10;
    assert b / 10 == a && c / 10 == b;
    assert b % 10 == b - 10 * a && c % 10 == c - 10 * b && n % 10 == n - 10 * c;
  }

  lemma DigitOfValue(c: char)
    requires IsDigit(c)
    ensures Digit(DigitValue(c)) == c
  {
  }

  lemma Pad2OfValue(s: string)
    requires |s| == 2 && AllDigits(s)
    ensures DigitsValue(s) <= 99 && Pad2(DigitsValue(s)) == s
  {
    DigitsValue2(s);
    var d0, d1 := DigitValue(s[0]), DigitValue(s[1]);
    DivMod10(d0, d1);
    DigitOfValue(s[0]);
    DigitOfValue(s[1]);
    assert Pad2(DigitsValue(s)) == [Digit(d0), Digit(d1)];
  }

  lemma DivMod10(q: int, r: int)
    requires 0 <= r < 10
    ensures (10 * q + r) / 10 == q && (10 * q + r) % 10 == r
  {
  }

  lemma DivMod100(q: int, r: int)
    requires 0 <= r < 100
    ensures (100 * q + r) / 100 == q
  {
  }

  lemma DivMod1000(q: int, r: int)
    requires 0 <= r < 1000
    ensures (1000 * q + r) / 1000 == q
  {
  }

  lemma Pad4OfValue(s: string)
    requires |s| == 4 && AllDigits(s)
    ensures DigitsValue(s) <= 9999 && Pad4(DigitsValue(s)) == s
  {
    DigitsValue4(s);
    var n := DigitsValue(s);
    var d0, d1, d2, d3 := DigitValue(s[0]), DigitValue(s[1]), DigitValue(s[2]), DigitValue(s[3]);
    DivMod10(100 * d0 + 10 * d1 + d2, d3);
    DivMod100(10 * d0 + d1, 10 * d2 + d3);
    DivMod1000(d0, 100 * d1 + 10 * d2 + d3);
    DivMod10(10 * d0 + d1, d2);
    DivMod10(d0, d1);
    assert n / 1000 == d0 && n / 100 % 10 == d1 && n / 10 % 10 == d2 && n % 10 == d3;
    DigitOfValue(s[0]);
    DigitOfValue(s[1]);
    DigitOfValue(s[2]);
    DigitOfValue(s[3]);
    assert Pad4(n) == [s[0], s[1], s[2], s[3]];
  }

  // ------------------------------------------------------ YYYY-MM-DD text

  /** `d` written as `strftime("%Y-%m-%d")` writes it. */
  function Format(d: Date): (s: string)
    requires Valid(d)
    ensures IsoShaped(s)
  {
    Pad4(d.year) + "-" + Pad2(d.month) + "-" + Pad2(d.day)
  }

  /** Ten characters: four digits, a dash, two digits, a dash, two digits. */
  predicate IsoShaped(s: string)
  {
    && |s| == 10 && s[4] == '-' && s[7] == '-'
    && AllDigits(s[0..4]) && AllDigits(s[5..7]) && AllDigits(s[8..10])
  }

  /**
   * `strptime(s, '%Y-%m-%d').date()` for text in the canonical `YYYY-MM-DD`
   * form; `None` where the text is not of that form or names no real date.
   */
  function Parse(s: string): (r: Option<Date>)
    ensures r.Some? ==> IsoShaped(s) && Valid(r.value)
  {
    if !IsoShaped(s) then None
    else
      var d := Date(DigitsValue(s[0..4]), DigitsValue(s[5..7]), DigitsValue(s[8..10]));
      if Valid(d) then Some(d) else None
  }

  /** A string the dashboard can turn into a date. */
  predicate WellFormed(s: string)
  {
    Parse(s).Some?
  }

  lemma FormatPieces(d: Date)
    requires Valid(d)
    ensures Format(d)[0..4] == Pad4(d.year)
    ensures Format(d)[4] == '-' && Format(d)[7] == '-'
    ensures Format(d)[5..7] == Pad2(d.month)
    ensures Format(d)[8..10] == Pad2(d.day)
  {
  }

  /** Parsing what was formatted gives the date back. */
  lemma ParseFormat(d: Date)
    requires Valid(d)
    ensures Parse(Format(d)) == Some(d)
  {
    FormatPieces(d);
    Pad4Value(d.year);
    Pad2Value(d.month);
    Pad2Value(d.day);
  }

  /** Formatting what was parsed gives the text back: a well-formed string has one date. */
  lemma FormatParse(s: string)
    requires WellFormed(s)
    ensures Format(Parse(s).value) == s
  {
    var d := Parse(s).value;
    Pad4OfValue(s[0..4]);
    Pad2OfValue(s[5..7]);
    Pad2OfValue(s[8..10]);
    FormatPieces(d);
    assert s == s[0..4] + [s[4]] + s[5..7] + [s[7]] + s[8..10];
  }

  /**
   * Comparing the `YYYY-MM-DD` texts of two dates as strings orders them as the
   * calendar does: string `<=` agrees with day-number `<=`.
   */
  lemma LexLeIsChronological(a: Date, b: Date)
    requires Valid(a) && Valid(b)
    ensures LexLe(Format(a), Format(b)) <==> Ordinal(a) <= Ordinal(b)
  {
    var ya, ma, da := Pad4(a.year), Pad2(a.month), Pad2(a.day);
    var yb, mb, db := Pad4(b.year), Pad2(b.month), Pad2(b.day);
    Pad4Value(a.year); Pad4Value(b.year);
    Pad2Value(a.month); Pad2Value(b.month);
    Pad2Value(a.day); Pad2Value(b.day);
    LexLeDigits(ya, yb);
    LexLeDigits(ma, mb);
    LexLeDigits(da, db);
    assert Format(a) == ya + ("-" + (ma + ("-" + da)));
    assert Format(b) == yb + ("-" + (mb + ("-" + db)));
    LexLeConcat(ya, "-" + (ma + ("-" + da)), yb, "-" + (mb + ("-" + db)));
    LexLeConcat("-", ma + ("-" + da), "-", mb + ("-" + db));
    LexLeConcat(ma, "-" + da, mb, "-" + db);
    LexLeConcat("-", da, "-", db);
    OrdinalOrder(a, b);
  }

  /** The same for two well-formed strings: string order is date order. */
  lemma LexLeOfWellFormed(s: string, t: string)
    requires WellFormed(s) && WellFormed(t)
    ensures LexLe(s, t) <==> Ordinal(Parse(s).value) <= Ordinal(Parse(t).value)
  {
    FormatParse(s);
    FormatParse(t);
    LexLeIsChronological(Parse(s).value, Parse(t).value);
  }
}
