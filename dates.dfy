/** Dates in the cleaned tables. Parsing a free-form date text
    (pd.to_datetime) is outside the model and arrives as a parameter; the
    re-rendering strftime('%d/%m/%Y') is modelled exactly. */
module Dates {
  import opened Wrappers
  import opened Text

  datatype Date = Date(day: nat, month: nat, year: nat)

  /** The dates a pandas Timestamp can hold, whose years all have four digits. */
  predicate IsCalendarDate(d: Date) {
    1 <= d.day <= 31 && 1 <= d.month <= 12 && 1000 <= d.year <= 9999
  }

  type CalendarDate = d: Date | IsCalendarDate(d) witness Date(1, 1, 2000)

  /** pd.to_datetime on one text: the date it denotes, or None when no
      format recognises the text. */
  type DateParser = string -> Option<CalendarDate>

  function Digit(n: nat): (c: char)
    requires n < 10
    ensures IsDigit(c)
  {
    ('0' as int + n) as char
  }

  function DigitValue(c: char): (n: nat)
    requires IsDigit(c)
    ensures n < 10
  {
    c as int - '0' as int
  }

  function Pow10(w: nat): (p: nat)
    ensures p >= 1
  {
    if w == 0 then 1 else 10 * Pow10(w - 1)
  }

  /** n written with exactly `width` decimal digits, zero-padded on the left
      (the low `width` digits of n). */
  function Padded(n: nat, width: nat): (r: string)
    ensures |r| == width
    ensures forall k :: 0 <= k < |r| ==> IsDigit(r[k])
  {
    if width == 0 then "" else Padded(n / 10, width - 1) + [Digit(n % 10)]
  }

  /** The value of a text of decimal digits. */
  function NumeralValue(s: string): nat
    requires forall k :: 0 <= k < |s| ==> IsDigit(s[k])
  {
    if s == "" then 0 else NumeralValue(s[..|s| - 1]) * 10 + DigitValue(s[|s| - 1])
  }

  /** Zero padding loses nothing when the number fits the width. */
  lemma {:induction false} PaddedValue(n: nat, width: nat)
    requires n < Pow10(width)
    ensures NumeralValue(Padded(n, width)) == n
  {
    if width > 0 {
      PaddedValue(n / 10, width - 1);
      var p := Padded(n, width);
      assert p[..|p| - 1] == Padded(n / 10, width - 1);
      assert DigitValue(Digit(n % 10)) == n % 10;
    }
  }

  /** strftime('%d/%m/%Y'): two-digit day, two-digit month, four-digit year. */
  function Render(d: CalendarDate): (r: string)
    ensures |r| == 10 && r[2] == '/' && r[5] == '/'
    ensures forall k :: 0 <= k < 10 && k != 2 && k != 5 ==> IsDigit(r[k])
  {
    Padded(d.day, 2) + "/" + Padded(d.month, 2) + "/" + Padded(d.year, 4)
  }

  /** Reads a DD/MM/YYYY text back into its day, month and year. */
  function ReadRendered(s: string): Option<Date> {
    if |s| == 10 && s[2] == '/' && s[5] == '/'
       && (forall k :: 0 <= k < 10 && k != 2 && k != 5 ==> IsDigit(s[k]))
    then Some(Date(NumeralValue(s[0..2]), NumeralValue(s[3..5]), NumeralValue(s[6..10])))
    else None
  }

  /** A rendered date reads back as the date it came from. */
  lemma RenderRoundTrip(d: CalendarDate)
    ensures ReadRendered(Render(d)) == Some(d)
  {
    var r := Render(d);
    assert r[0..2] == Padded(d.day, 2);
    assert r[3..5] == Padded(d.month, 2);
    assert r[6..10] == Padded(d.year, 4);
    PaddedValue(d.day, 2);
    PaddedValue(d.month, 2);
    PaddedValue(d.year, 4);
  }

  /** Two different dates never render to the same text. */
  lemma RenderInjective(d1: CalendarDate, d2: CalendarDate)
    requires Render(d1) == Render(d2)
    ensures d1 == d2
  {
    RenderRoundTrip(d1);
    RenderRoundTrip(d2);
  }

  /** Day-first order and zero padding, on the first two dates of the
      cleaning examples as the parser reads them. */
  lemma RenderExamples()
    ensures Render(Date(2, 1, 2021)) == "02/01/2021"
    ensures Render(Date(12, 7, 2020)) == "12/07/2020"
  {
  }

  /** The same, on the last two dates of the cleaning examples. */
  lemma RenderMoreExamples()
    ensures Render(Date(1, 4, 2021)) == "01/04/2021"
    ensures Render(Date(24, 1, 2022)) == "24/01/2022"
  {
  }
}
