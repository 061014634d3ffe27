/**
 * The yyyy-MM-dd text form in which the store keeps dates
 * (QDate::toString / QDate::fromString with that format). The lemmas show
 * that, for years 0..9999, comparing the texts (which is what the store's
 * BETWEEN and ORDER BY do) is the same as comparing the dates, and that
 * reading a written date back gives the same date. The rest of the model
 * therefore keeps dates as Date values.
 */
module DateText {
  import opened Dates
  import opened Text
  import opened Wrappers

  function Pow10(w: nat): (p: nat)
    ensures p >= 1
  {
    if w == 0 then 1 else 10 * Pow10(w - 1)
  }

  predicate IsDigit(c: char) {
    '0' <= c <= '9'
  }

  function DigitChar(d: int): (c: char)
    requires 0 <= d < 10
    ensures IsDigit(c) && c as int - '0' as int == d
  {
    ('0' as int + d) as char
  }

  /** The last `w` decimal digits of `n`, zero-padded. */
  function Digits(n: nat, w: nat): (s: string)
    ensures |s| == w
    ensures forall k :: 0 <= k < |s| ==> IsDigit(s[k])
  {
    if w == 0 then [] else Digits(n / 10, w - 1) + [DigitChar(n % 10)]
  }

  /** The number a string of decimal digits spells. */
  function DigitsValue(s: string): (n: nat)
    requires forall k :: 0 <= k < |s| ==> IsDigit(s[k])
    ensures n < Pow10(|s|)
  {
    if s == [] then 0
    else
      var high := DigitsValue(s[..|s| - 1]);
      assert IsDigit(s[|s| - 1]);
      var low := s[|s| - 1] as int - '0' as int;
      assert high * 10 + low < Pow10(|s| - 1) * 10 by {
        assert high + 1 <= Pow10(|s| - 1);
      }
      high * 10 + low
  }

  /** Non-negative parts of a date are printed as their value; others as 0. */
  function Field(n: int, w: nat): string {
    Digits(if n < 0 then 0 else n, w)
  }

  /** Three fields separated by dashes. */
  function Dashed(x: string, y: string, z: string): string {
    x + ("-" + (y + ("-" + z)))
  }

  /** QDate::toString("yyyy-MM-dd") for years 0..9999. */
  function FormatDate(d: Date): (s: string)
    ensures |s| == 10 && s[4] == '-' && s[7] == '-'
  {
    Dashed(Field(d.year, 4), Field(d.month, 2), Field(d.day, 2))
  }

  predicate AllDigits(s: string) {
    forall k :: 0 <= k < |s| ==> IsDigit(s[k])
  }

  /**
   * QDate::fromString(s, "yyyy-MM-dd"): a date when `s` has exactly that
   * shape and names a real calendar day, otherwise nothing (a null QDate).
   */
  function ParseDate(s: string): (r: Option<Date>)
    ensures r.Some? ==> ValidDate(r.value) && 0 <= r.value.year <= 9999
  {
    if |s| == 10 && s[4] == '-' && s[7] == '-'
       && AllDigits(s[..4]) && AllDigits(s[5..7]) && AllDigits(s[8..])
    then
      var d := Date(DigitsValue(s[..4]), DigitsValue(s[5..7]), DigitsValue(s[8..]));
      if ValidDate(d) then Some(d) else None
    else None
  }

  predicate Printable(d: Date) {
    ValidDate(d) && 0 <= d.year <= 9999
  }

  lemma {:induction false} DigitsRoundTrip(n: nat, w: nat)
    requires n < Pow10(w)
    ensures DigitsValue(Digits(n, w)) == n
  {
    if w > 0 {
      DigitsRoundTrip(n / 10, w - 1);
      var s := Digits(n, w);
      assert s[..|s| - 1] == Digits(n / 10, w - 1);
    }
  }

  /** Zero-padded numbers of one width compare as texts as they do as numbers. */
  lemma {:induction false} DigitsOrder(n: nat, m: nat, w: nat)
    requires n < Pow10(w) && m < Pow10(w)
    ensures Less(Digits(n, w), Digits(m, w)) <==> n < m
    ensures Digits(n, w) == Digits(m, w) <==> n == m
  {
    if w == 0 {
      assert n == 0 && m == 0;
    } else {
      DigitsOrder(n / 10, m / 10, w - 1);
      LessConcat(Digits(n / 10, w - 1), [DigitChar(n % 10)], Digits(m / 10, w - 1), [DigitChar(m % 10)]);
      DigitsRoundTrip(n, w);
      DigitsRoundTrip(m, w);
    }
  }

  /** Writing a printable date and reading it back gives the same date. */
  lemma DateRoundTrip(d: Date)
    requires Printable(d)
    ensures ParseDate(FormatDate(d)) == Some(d)
  {
    var s := FormatDate(d);
    assert s == Digits(d.year, 4) + "-" + Digits(d.month, 2) + "-" + Digits(d.day, 2);
    assert s[..4] == Digits(d.year, 4);
    assert s[5..7] == Digits(d.month, 2);
    assert s[8..] == Digits(d.day, 2);
    DigitsRoundTrip(d.year, 4);
    DigitsRoundTrip(d.month, 2);
    DigitsRoundTrip(d.day, 2);
  }

  /** Dash-separated fields of fixed widths compare field by field. */
  lemma DashedOrder(x1: string, y1: string, z1: string, x2: string, y2: string, z2: string)
    requires |x1| == |x2| && |y1| == |y2|
    ensures Less(Dashed(x1, y1, z1), Dashed(x2, y2, z2))
            <==> Less(x1, x2) || (x1 == x2 && (Less(y1, y2) || (y1 == y2 && Less(z1, z2))))
  {
    LessIrreflexive("-");
    LessConcat("-", z1, "-", z2);
    LessConcat(y1, "-" + z1, y2, "-" + z2);
    LessConcat("-", y1 + ("-" + z1), "-", y2 + ("-" + z2));
    LessConcat(x1, "-" + (y1 + ("-" + z1)), x2, "-" + (y2 + ("-" + z2)));
  }

  /**
   * For printable dates the text order is the date order, so the store's
   * `date BETWEEN first AND last` on texts selects the same rows as InMonth.
   */
  lemma DateTextOrder(a: Date, b: Date)
    requires Printable(a) && Printable(b)
    ensures Less(FormatDate(a), FormatDate(b)) <==> Before(a, b)
    ensures FormatDate(a) == FormatDate(b) <==> a == b
  {
    DigitsOrder(a.year, b.year, 4);
    DigitsOrder(a.month, b.month, 2);
    DigitsOrder(a.day, b.day, 2);
    DashedOrder(Field(a.year, 4), Field(a.month, 2), Field(a.day, 2),
                Field(b.year, 4), Field(b.month, 2), Field(b.day, 2));
    DateRoundTrip(a);
    DateRoundTrip(b);
  }
}
