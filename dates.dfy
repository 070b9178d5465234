/**
 * Date strings of the task manager: `formatDate`, which renders a calendar
 * date as `year-MM-DD`; the `^\d{4}-\d{2}-\d{2}$` shape test; and
 * `formatExamDateForDisplay`, which rewrites `YYYY-MM-DD` as `DD/MM/YYYY`.
 * The JavaScript `Date` object is not modelled: its local year, month
 * (1-based) and day of the month are passed in as integers.
 */
module Dates {
  import opened JsStrings

  /** `\d` in a JavaScript regular expression: an ASCII decimal digit. */
  predicate IsDigit(c: char)
  {
    '0' <= c <= '9'
  }

  function DigitValue(c: char): nat
    requires IsDigit(c)
  {
    c as int - '0' as int
  }

  function DigitChar(n: nat): (c: char)
    requires n < 10
    ensures IsDigit(c) && DigitValue(c) == n
  {
    ('0' as int + n) as char
  }

  predicate AllDigits(s: string)
  {
    forall k :: 0 <= k < |s| ==> IsDigit(s[k])
  }

  /** The number a string of decimal digits denotes (leading zeros allowed). */
  function DigitsValue(s: string): nat
    requires AllDigits(s)
  {
    if s == [] then 0 else DigitsValue(s[..|s| - 1]) * 10 + DigitValue(s[|s| - 1])
  }

  /** `String(n)` for a non-negative integer: its decimal digits, without leading zeros. */
  function NatToString(n: nat): (r: string)
    ensures r != [] && AllDigits(r)
    ensures |r| > 1 ==> r[0] != '0'
  {
    if n < 10 then [DigitChar(n)] else NatToString(n / 10) + [DigitChar(n % 10)]
  }

  /** `String(y)` for an integer, with a minus sign for a negative one. */
  function IntToString(y: int): string
  {
    if y < 0 then "-" + NatToString(-y) else NatToString(y)
  }

  /** `s.padStart(width, fill)` for a one-character `fill`. */
  function PadStart(s: string, width: nat, fill: char): (r: string)
    ensures |r| == if |s| < width then width else |s|
    ensures r[|r| - |s|..] == s
    ensures forall k :: 0 <= k < |r| - |s| ==> r[k] == fill
  {
    if |s| >= width then s else seq(width - |s|, _ => fill) + s
  }

  /** `String(n).padStart(2, "0")`. */
  function TwoDigits(n: nat): string
  {
    PadStart(NatToString(n), 2, '0')
  }

  /**
   * `formatDate(date)` (taskmanager.js:41-46): the year as `String` renders
   * it, then month and day zero-padded to two digits, joined by `-`.
   * A JavaScript `Date` always has a month in 1..12 and a day in 1..31.
   */
  function FormatDate(year: int, month: int, day: int): string
    requires 1 <= month <= 12 && 1 <= day <= 31
  {
    IntToString(year) + "-" + TwoDigits(month) + "-" + TwoDigits(day)
  }

  /** `/^\d{4}-\d{2}-\d{2}$/.test(s)`: four digits, dash, two digits, dash, two digits, nothing else. */
  predicate IsIsoShape(s: string)
  {
    |s| == 10 && AllDigits(s[..4]) && s[4] == '-' && AllDigits(s[5..7]) && s[7] == '-' && AllDigits(s[8..])
  }

  function Year(s: string): nat
    requires IsIsoShape(s)
  {
    DigitsValue(s[..4])
  }

  function Month(s: string): nat
    requires IsIsoShape(s)
  {
    DigitsValue(s[5..7])
  }

  function Day(s: string): nat
    requires IsIsoShape(s)
  {
    DigitsValue(s[8..])
  }

  /** Calendar order: the date (y1, m1, d1) is strictly earlier than (y2, m2, d2). */
  predicate Before(y1: int, m1: int, d1: int, y2: int, m2: int, d2: int)
  {
    y1 < y2 || (y1 == y2 && (m1 < m2 || (m1 == m2 && d1 < d2)))
  }

  /** For digit strings of equal length, string order is numeric order, and equal strings are equal numbers. */
  lemma {:induction false} DigitsOrder(a: string, b: string)
    requires AllDigits(a) && AllDigits(b) && |a| == |b|
    ensures a == b <==> DigitsValue(a) == DigitsValue(b)
    ensures LexLess(a, b) <==> DigitsValue(a) < DigitsValue(b)
  {
    if a != [] {
      var a', b' := a[..|a| - 1], b[..|b| - 1];
      var x, y := a[|a| - 1], b[|b| - 1];
      assert a == a' + [x] && b == b' + [y];
      DigitsOrder(a', b');
      LexLessSplit(a', [x], b', [y]);
      assert LexLess([x], [y]) <==> x < y by {
        assert [x][1..] == [] && [y][1..] == [];
      }
    }
  }

  /**
   * Comparing two `YYYY-MM-DD` strings with JavaScript's `<` is comparing
   * the dates they name in calendar order.
   */
  lemma IsoOrderIsChronological(s: string, t: string)
    requires IsIsoShape(s) && IsIsoShape(t)
    ensures LexLess(s, t) <==> Before(Year(s), Month(s), Day(s), Year(t), Month(t), Day(t))
  {
    assert s == s[..4] + s[4..] && t == t[..4] + t[4..];
    assert s[4..] == s[4..5] + s[5..] && t[4..] == t[4..5] + t[5..];
    assert s[5..] == s[5..7] + s[7..] && t[5..] == t[5..7] + t[7..];
    assert s[7..] == s[7..8] + s[8..] && t[7..] == t[7..8] + t[8..];
    LexLessSplit(s[..4], s[4..], t[..4], t[4..]);
    LexLessSplit(s[4..5], s[5..], t[4..5], t[5..]);
    LexLessSplit(s[5..7], s[7..], t[5..7], t[7..]);
    LexLessSplit(s[7..8], s[8..], t[7..8], t[8..]);
    DigitsOrder(s[..4], t[..4]);
    DigitsOrder(s[5..7], t[5..7]);
    DigitsOrder(s[8..], t[8..]);
  }

  /** Reading back the digits `String(n)` writes gives `n`. */
  lemma {:induction false} NatToStringValue(n: nat)
    ensures DigitsValue(NatToString(n)) == n
  {
    var r := NatToString(n);
    if n < 10 {
      assert r[..0] == [];
    } else {
      assert r[..|r| - 1] == NatToString(n / 10);
      NatToStringValue(n / 10);
    }
  }

  /** A year from 1000 to 9999 is written with exactly four digits. */
  lemma FourDigitYear(y: nat)
    requires 1000 <= y <= 9999
    ensures |NatToString(y)| == 4
  {
    var a := y / 10;
    var b := a / 10;
    var c := b / 10;
    assert |NatToString(c)| == 1;
    assert |NatToString(b)| == 2;
    assert |NatToString(a)| == 3;
  }

  /** `String(n).padStart(2, "0")` for n below 100 is two digits. */
  lemma TwoDigitsShape(n: nat)
    requires n < 100
    ensures |TwoDigits(n)| == 2 && AllDigits(TwoDigits(n))
  {
    if n >= 10 {
      assert |NatToString(n / 10)| == 1;
    }
  }

  /** `String(n).padStart(2, "0")` for n below 100 is two digits that read back as n. */
  lemma TwoDigitsValue(n: nat)
    requires n < 100
    ensures |TwoDigits(n)| == 2 && AllDigits(TwoDigits(n)) && DigitsValue(TwoDigits(n)) == n
  {
    TwoDigitsShape(n);
    var r := TwoDigits(n);
    if n < 10 {
      assert r == ['0', DigitChar(n)];
      assert r[..1] == ['0'] && ['0'][..0] == [];
    } else {
      NatToStringValue(n);
    }
  }

  /** Where the parts of `a-b-c` sit in the joined string. */
  lemma JoinedParts(a: string, b: string, c: string)
    ensures (a + "-" + b + "-" + c)[..|a|] == a
    ensures (a + "-" + b + "-" + c)[|a|] == '-'
    ensures (a + "-" + b + "-" + c)[|a| + 1..|a| + 1 + |b|] == b
    ensures (a + "-" + b + "-" + c)[|a| + 1 + |b|] == '-'
    ensures (a + "-" + b + "-" + c)[|a| + 2 + |b|..] == c
  {
  }

  /** For a four-digit year, `formatDate` produces the `YYYY-MM-DD` shape, field by field. */
  lemma FormatDateFields(year: int, month: int, day: int)
    requires 1000 <= year <= 9999 && 1 <= month <= 12 && 1 <= day <= 31
    ensures IsIsoShape(FormatDate(year, month, day))
    ensures FormatDate(year, month, day)[..4] == NatToString(year)
    ensures FormatDate(year, month, day)[5..7] == TwoDigits(month)
    ensures FormatDate(year, month, day)[8..] == TwoDigits(day)
  {
    FourDigitYear(year);
    TwoDigitsShape(month);
    TwoDigitsShape(day);
    JoinedParts(NatToString(year), TwoDigits(month), TwoDigits(day));
  }

  /**
   * For a four-digit year, `formatDate` produces a string of the
   * `YYYY-MM-DD` shape whose fields read back as the year, month and day.
   */
  lemma FormatDateParses(year: int, month: int, day: int)
    requires 1000 <= year <= 9999 && 1 <= month <= 12 && 1 <= day <= 31
    ensures IsIsoShape(FormatDate(year, month, day))
    ensures Year(FormatDate(year, month, day)) == year
    ensures Month(FormatDate(year, month, day)) == month
    ensures Day(FormatDate(year, month, day)) == day
  {
    FormatDateFields(year, month, day);
    NatToStringValue(year);
    TwoDigitsValue(month);
    TwoDigitsValue(day);
  }

  /**
   * Two dates with four-digit years formatted by `formatDate` compare as
   * strings exactly as they compare on the calendar.
   */
  lemma FormatDateOrder(y1: int, m1: int, d1: int, y2: int, m2: int, d2: int)
    requires 1000 <= y1 <= 9999 && 1 <= m1 <= 12 && 1 <= d1 <= 31
    requires 1000 <= y2 <= 9999 && 1 <= m2 <= 12 && 1 <= d2 <= 31
    ensures LexLess(FormatDate(y1, m1, d1), FormatDate(y2, m2, d2)) <==> Before(y1, m1, d1, y2, m2, d2)
  {
    FormatDateParses(y1, m1, d1);
    FormatDateParses(y2, m2, d2);
    IsoOrderIsChronological(FormatDate(y1, m1, d1), FormatDate(y2, m2, d2));
  }

  /**
   * `formatExamDateForDisplay(iso)` (taskmanager.js:228-233): a string of the
   * `YYYY-MM-DD` shape becomes `DD/MM/YYYY`; anything else, the empty string
   * included, comes back unchanged. Splitting such a string at `-` yields
   * exactly its year, month and day slices.
   */
  function FormatExamDateForDisplay(iso: string): string
  {
    if iso == [] || !IsIsoShape(iso) then iso
    else iso[8..] + "/" + iso[5..7] + "/" + iso[..4]
  }

  /** The `DD/MM/YYYY` shape. */
  predicate IsDisplayShape(s: string)
  {
    |s| == 10 && AllDigits(s[..2]) && s[2] == '/' && AllDigits(s[3..5]) && s[5] == '/' && AllDigits(s[6..])
  }

  /** Reads a `DD/MM/YYYY` string back as `YYYY-MM-DD`. */
  function IsoFromDisplay(s: string): string
    requires IsDisplayShape(s)
  {
    s[6..] + "-" + s[3..5] + "-" + s[..2]
  }

  /**
   * The display form of an ISO date has the `DD/MM/YYYY` shape and loses
   * nothing: reading it back gives the ISO string. Any other string is
   * displayed as it is.
   */
  lemma DisplayRoundTrip(iso: string)
    ensures IsIsoShape(iso) ==> IsDisplayShape(FormatExamDateForDisplay(iso))
    ensures IsIsoShape(iso) ==> IsoFromDisplay(FormatExamDateForDisplay(iso)) == iso
    ensures !IsIsoShape(iso) ==> FormatExamDateForDisplay(iso) == iso
  {
    if IsIsoShape(iso) {
      var r := FormatExamDateForDisplay(iso);
      assert r[..2] == iso[8..] && r[3..5] == iso[5..7] && r[6..] == iso[..4];
      assert IsoFromDisplay(r) == iso[..4] + "-" + iso[5..7] + "-" + iso[8..];
      assert iso == iso[..4] + "-" + iso[5..7] + "-" + iso[8..];
    }
  }

  /**
   * Displaying what `formatDate` produced for a four-digit year gives
   * `DD/MM/YYYY` with the same zero-padded digits.
   */
  lemma DisplayOfFormatDate(year: int, month: int, day: int)
    requires 1000 <= year <= 9999 && 1 <= month <= 12 && 1 <= day <= 31
    ensures FormatExamDateForDisplay(FormatDate(year, month, day)) ==
            TwoDigits(day) + "/" + TwoDigits(month) + "/" + NatToString(year)
  {
    FormatDateFields(year, month, day);
  }
}
