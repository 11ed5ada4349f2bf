/**
 * Date and month keys (`formatDateKey`, `formatMonthKey`) and the way the global search turns a
 * found date key back into a year and month (`split("-").map(Number)`).
 */
module DateKeys {
  import opened Wrappers
  import opened Strings

  predicate IsDigit(c: char) { '0' <= c <= '9' }

  predicate AllDigits(s: string) { forall i :: 0 <= i < |s| ==> IsDigit(s[i]) }

  function Digit(d: int): (c: char)
    requires 0 <= d < 10
    ensures IsDigit(c)
  {
    (d + '0' as int) as char
  }

  function DigitValue(c: char): int
    requires IsDigit(c)
  {
    c as int - '0' as int
  }

  /** `String(n)` for a natural number: the shortest decimal numeral. */
  function NatToString(n: nat): (r: string)
    ensures |r| >= 1 && AllDigits(r)
    ensures n > 0 ==> r[0] != '0'
    ensures n >= 10 ==> |r| >= 2
  {
    if n < 10 then [Digit(n)] else NatToString(n / 10) + [Digit(n % 10)]
  }

  /** `String(n)` for any integer. */
  function IntToString(n: int): string
  {
    if n < 0 then "-" + NatToString(-n) else NatToString(n)
  }

  /** `Number(s)` for a string of decimal digits, leading zeros allowed; the empty string reads as 0. */
  function ParseDigits(s: string): nat
    requires AllDigits(s)
  {
    if |s| == 0 then 0 else 10 * ParseDigits(s[..|s| - 1]) + DigitValue(s[|s| - 1])
  }

  /** Reading back a printed natural number gives the number. */
  lemma {:induction false} ParseNatToString(n: nat)
    ensures ParseDigits(NatToString(n)) == n
  {
    var s := NatToString(n);
    if n >= 10 {
      ParseNatToString(n / 10);
      assert s[..|s| - 1] == NatToString(n / 10);
    }
  }

  lemma NatToStringInjective(a: nat, b: nat)
    requires NatToString(a) == NatToString(b)
    ensures a == b
  {
    ParseNatToString(a);
    ParseNatToString(b);
  }

  lemma IntToStringInjective(a: int, b: int)
    requires IntToString(a) == IntToString(b)
    ensures a == b
  {
    if a < 0 && b < 0 {
      assert NatToString(-a) == IntToString(a)[1..];
      NatToStringInjective(-a, -b);
    } else if a >= 0 && b >= 0 {
      NatToStringInjective(a, b);
    }
  }

  /** `String(n).padStart(2, "0")`: a single-digit numeral gets one leading zero. */
  function Pad2(n: nat): string
  {
    var s := NatToString(n);
    if |s| >= 2 then s else "0" + s
  }

  lemma Pad2Digits(n: nat)
    requires n < 100
    ensures Pad2(n) == [Digit(n / 10), Digit(n % 10)]
  {
    if n >= 10 {
      assert NatToString(n) == NatToString(n / 10) + [Digit(n % 10)];
    }
  }

  /** `formatDateKey`: "Y-MM-DD" from the full year, the 0-based month and the day of the month. */
  function FormatDateKey(year: int, monthIndex: int, day: int): string
    requires 0 <= monthIndex < 12 && 1 <= day <= 31
  {
    IntToString(year) + "-" + Pad2(monthIndex + 1) + "-" + Pad2(day)
  }

  /** `formatMonthKey`: "Y-MM"; every date key of that month extends it with "-DD". */
  function FormatMonthKey(year: int, monthIndex: int): (key: string)
    requires 0 <= monthIndex < 12
    ensures forall day :: 1 <= day <= 31 ==> FormatDateKey(year, monthIndex, day) == key + "-" + Pad2(day)
  {
    IntToString(year) + "-" + Pad2(monthIndex + 1)
  }

  lemma NatToStringFourDigits(n: nat)
    requires 1000 <= n <= 9999
    ensures |NatToString(n)| == 4
  {
    assert NatToString(n) == NatToString(n / 10) + [Digit(n % 10)];
    assert NatToString(n / 10) == NatToString(n / 100) + [Digit(n / 10 % 10)];
    assert NatToString(n / 100) == NatToString(n / 1000) + [Digit(n / 100 % 10)];
  }

  /** For four-digit years a date key is ten characters "YYYY-MM-DD". */
  lemma DateKeyShape(year: int, monthIndex: int, day: int)
    requires 1000 <= year <= 9999 && 0 <= monthIndex < 12 && 1 <= day <= 31
    ensures var key := FormatDateKey(year, monthIndex, day);
      |key| == 10 && key[4] == '-' && key[7] == '-'
  {
    var y, m, d := NatToString(year), Pad2(monthIndex + 1), Pad2(day);
    NatToStringFourDigits(year);
    Pad2Digits(monthIndex + 1);
    Pad2Digits(day);
    assert IntToString(year) == y;
    var key := y + "-" + m + "-" + d;
    assert key == FormatDateKey(year, monthIndex, day);
    assert key[4] == "-"[0];
    assert key[7] == "-"[0];
  }

  /** The year, month and day numerals sit at fixed places counted from the end of a date key. */
  lemma DateKeyParts(year: int, monthIndex: int, day: int)
    requires 0 <= monthIndex < 12 && 1 <= day <= 31
    ensures var key := FormatDateKey(year, monthIndex, day);
      && |key| >= 7
      && key[..|key| - 6] == IntToString(year)
      && key[|key| - 5..|key| - 3] == Pad2(monthIndex + 1)
      && key[|key| - 2..] == Pad2(day)
  {
    var y, m, d := IntToString(year), Pad2(monthIndex + 1), Pad2(day);
    Pad2Digits(monthIndex + 1);
    Pad2Digits(day);
    var key := y + "-" + m + "-" + d;
    assert key == FormatDateKey(year, monthIndex, day);
    assert key[..|key| - 6] == y;
    assert key[|key| - 5..|key| - 3] == m;
    assert key[|key| - 2..] == d;
  }

  /** Distinct dates give distinct keys, whatever the year. */
  lemma DateKeyInjective(y1: int, m1: int, d1: int, y2: int, m2: int, d2: int)
    requires 0 <= m1 < 12 && 1 <= d1 <= 31 && 0 <= m2 < 12 && 1 <= d2 <= 31
    requires FormatDateKey(y1, m1, d1) == FormatDateKey(y2, m2, d2)
    ensures y1 == y2 && m1 == m2 && d1 == d2
  {
    var key := FormatDateKey(y1, m1, d1);
    var n := |key|;
    DateKeyParts(y1, m1, d1);
    DateKeyParts(y2, m2, d2);
    assert IntToString(y1) == key[..n - 6] == IntToString(y2);
    assert Pad2(m1 + 1) == key[n - 5..n - 3] == Pad2(m2 + 1);
    assert Pad2(d1) == key[n - 2..] == Pad2(d2);
    IntToStringInjective(y1, y2);
    Pad2Injective(m1 + 1, m2 + 1);
    Pad2Injective(d1, d2);
  }

  lemma {:induction false} LexLessDigits(x: nat, y: nat)
    requires |NatToString(x)| == |NatToString(y)|
    ensures LexLess(NatToString(x), NatToString(y)) <==> x < y
  {
    if x < 10 && y < 10 {
      assert LexLess(NatToString(x), NatToString(y)) <==> Digit(x) < Digit(y);
    } else if x >= 10 && y >= 10 {
      var a, b := NatToString(x / 10), NatToString(y / 10);
      LexLessConcat(a, [Digit(x % 10)], b, [Digit(y % 10)]);
      LexLessDigits(x / 10, y / 10);
      if a == b {
        NatToStringInjective(x / 10, y / 10);
      }
      assert x == 10 * (x / 10) + x % 10 && y == 10 * (y / 10) + y % 10;
    }
  }

  lemma Pad2Injective(x: nat, y: nat)
    requires x < 100 && y < 100 && Pad2(x) == Pad2(y)
    ensures x == y
  {
    Pad2Digits(x);
    Pad2Digits(y);
    assert x == 10 * (x / 10) + x % 10 && y == 10 * (y / 10) + y % 10;
  }

  lemma Pad2Order(x: nat, y: nat)
    requires x < 100 && y < 100
    ensures LexLess(Pad2(x), Pad2(y)) <==> x < y
  {
    Pad2Digits(x);
    Pad2Digits(y);
    LexLessConcat([Digit(x / 10)], [Digit(x % 10)], [Digit(y / 10)], [Digit(y % 10)]);
    assert x == 10 * (x / 10) + x % 10 && y == 10 * (y / 10) + y % 10;
  }

  /** A date key is the year numeral followed by "-MM-DD". */
  lemma DateKeySplitsAfterYear(year: int, monthIndex: int, day: int)
    requires 0 <= monthIndex < 12 && 1 <= day <= 31
    ensures FormatDateKey(year, monthIndex, day) == IntToString(year) + MonthDaySuffix(monthIndex, day)
  {
  }

  /** The "-MM-DD" part of a date key. */
  function MonthDaySuffix(monthIndex: int, day: int): string
    requires 0 <= monthIndex < 12 && 1 <= day <= 31
  {
    "-" + Pad2(monthIndex + 1) + "-" + Pad2(day)
  }

  /** Comparing "-M-D" strings with two-character M parts compares M first, then D. */
  lemma DashedPairOrder(m1: string, d1: string, m2: string, d2: string)
    requires |m1| == 2 && |m2| == 2
    ensures LexLess("-" + m1 + "-" + d1, "-" + m2 + "-" + d2) <==> LexLess(m1, m2) || (m1 == m2 && LexLess(d1, d2))
    ensures "-" + m1 + "-" + d1 == "-" + m2 + "-" + d2 <==> m1 == m2 && d1 == d2
  {
    var dash: string := "-";
    var t1, t2 := dash + d1, dash + d2;
    assert dash + m1 + dash + d1 == dash + (m1 + t1) && dash + m2 + dash + d2 == dash + (m2 + t2);
    LexLessSamePrefix(dash, m1 + t1, m2 + t2);
    LexLessConcat(m1, t1, m2, t2);
    LexLessSamePrefix(dash, d1, d2);
    if dash + (m1 + t1) == dash + (m2 + t2) {
      assert m1 + t1 == (dash + (m1 + t1))[1..];
      assert m2 + t2 == (dash + (m2 + t2))[1..];
      assert m1 == (m1 + t1)[..2] && m2 == (m2 + t2)[..2];
      assert d1 == (m1 + t1)[3..] && d2 == (m2 + t2)[3..];
    }
  }

  lemma MonthDaySuffixOrder(m1: int, d1: int, m2: int, d2: int)
    requires 0 <= m1 < 12 && 1 <= d1 <= 31 && 0 <= m2 < 12 && 1 <= d2 <= 31
    ensures LexLess(MonthDaySuffix(m1, d1), MonthDaySuffix(m2, d2)) <==> m1 < m2 || (m1 == m2 && d1 < d2)
    ensures MonthDaySuffix(m1, d1) == MonthDaySuffix(m2, d2) <==> m1 == m2 && d1 == d2
  {
    Pad2Digits(m1 + 1);
    Pad2Digits(m2 + 1);
    DashedPairOrder(Pad2(m1 + 1), Pad2(d1), Pad2(m2 + 1), Pad2(d2));
    Pad2Order(m1 + 1, m2 + 1);
    Pad2Order(d1, d2);
    if Pad2(m1 + 1) == Pad2(m2 + 1) {
      Pad2Injective(m1 + 1, m2 + 1);
    }
    if Pad2(d1) == Pad2(d2) {
      Pad2Injective(d1, d2);
    }
  }

  /**
   * For four-digit years, the string order of date keys (the order of `Object.keys(...).sort()`)
   * is the chronological order of the dates.
   */
  lemma DateKeyOrder(y1: int, m1: int, d1: int, y2: int, m2: int, d2: int)
    requires 1000 <= y1 <= 9999 && 0 <= m1 < 12 && 1 <= d1 <= 31
    requires 1000 <= y2 <= 9999 && 0 <= m2 < 12 && 1 <= d2 <= 31
    ensures LexLess(FormatDateKey(y1, m1, d1), FormatDateKey(y2, m2, d2))
      <==> y1 < y2 || (y1 == y2 && (m1 < m2 || (m1 == m2 && d1 < d2)))
  {
    var a, b := NatToString(y1), NatToString(y2);
    NatToStringFourDigits(y1);
    NatToStringFourDigits(y2);
    LexLessDigits(y1, y2);
    if a == b {
      NatToStringInjective(y1, y2);
    }
    DateKeySplitsAfterYear(y1, m1, d1);
    DateKeySplitsAfterYear(y2, m2, d2);
    LexLessConcat(a, MonthDaySuffix(m1, d1), b, MonthDaySuffix(m2, d2));
    MonthDaySuffixOrder(m1, d1, m2, d2);
  }

  /** `s.split(sep)` for a one-character separator. */
  function Split(s: string, sep: char): (parts: seq<string>)
    ensures |parts| >= 1
    decreases |s|
  {
    if |s| == 0 then [""]
    else
      var tail := Split(s[1..], sep);
      if s[0] == sep then [""] + tail else [[s[0]] + tail[0]] + tail[1..]
  }

  lemma {:induction false} SplitWithout(a: string, sep: char)
    requires sep !in a
    ensures Split(a, sep) == [a]
    decreases |a|
  {
    if |a| > 0 {
      SplitWithout(a[1..], sep);
      assert [a[0]] + a[1..] == a;
    }
  }

  lemma {:induction false} SplitAt(a: string, b: string, sep: char)
    requires sep !in a
    ensures Split(a + [sep] + b, sep) == [a] + Split(b, sep)
    decreases |a|
  {
    var s := a + [sep] + b;
    if |a| == 0 {
      assert s[1..] == b;
    } else {
      assert s[1..] == a[1..] + [sep] + b;
      SplitAt(a[1..], b, sep);
      assert [a[0]] + a[1..] == a;
    }
  }

  /** `Number(s)` for the strings a date key splits into: decimal digits (the empty string is 0); anything else is NaN. */
  function DigitsNumber(s: string): Option<int>
  {
    if AllDigits(s) then Some(ParseDigits(s)) else None
  }

  /** The year and 1-based month the global search reads from a found date key. */
  function SearchedYearMonth(key: string): (Option<int>, Option<int>)
  {
    var parts := Split(key, '-');
    (DigitsNumber(parts[0]), if |parts| >= 2 then DigitsNumber(parts[1]) else None)
  }

  lemma ParsePad2(n: nat)
    requires n < 100
    ensures AllDigits(Pad2(n)) && ParseDigits(Pad2(n)) == n
  {
    Pad2Digits(n);
    var p := Pad2(n);
    assert p[..1] == [Digit(n / 10)];
    assert ParseDigits(p[..1]) == n / 10;
  }

  lemma NoDashInDigits(s: string)
    requires AllDigits(s)
    ensures '-' !in s
  {
  }

  /** For a non-negative year, the search reads back exactly the year and month the key was made from. */
  lemma SearchedYearMonthOfDateKey(year: int, monthIndex: int, day: int)
    requires year >= 0 && 0 <= monthIndex < 12 && 1 <= day <= 31
    ensures SearchedYearMonth(FormatDateKey(year, monthIndex, day)) == (Some(year), Some(monthIndex + 1))
  {
    var y, m, d := NatToString(year), Pad2(monthIndex + 1), Pad2(day);
    ParsePad2(monthIndex + 1);
    ParsePad2(day);
    ParseNatToString(year);
    NoDashInDigits(y);
    NoDashInDigits(m);
    NoDashInDigits(d);
    var rest := m + ['-'] + d;
    assert FormatDateKey(year, monthIndex, day) == y + ['-'] + rest;
    SplitAt(y, rest, '-');
    SplitAt(m, d, '-');
    SplitWithout(d, '-');
    assert Split(FormatDateKey(year, monthIndex, day), '-') == [y, m, d];
  }
}
