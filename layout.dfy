/**
 * The wire form of a task date: the layout "20060102", eight digits
 * YYYYMMDD (the basic-format complete calendar date of ISO 8601:2004,
 * section 4.1.2.2), read with time.Parse and written with Time.Format.
 */
module Layout {
  import opened Wrappers
  import opened Text
  import opened Calendar

  /**
   * time.Parse("20060102", s): exactly eight digits, a four-digit year, a
   * two-digit month in 1..12 and a two-digit day that the month has.
   */
  function ParseDate(s: string): (r: Option<Date>)
    ensures r.Some? ==> Valid(r.value) && 0 <= r.value.year <= 9999
    ensures r.Some? ==> |s| == 8 && AllDigits(s)
  {
    if |s| != 8 || !AllDigits(s) then None
    else
      DigitsBound(s[..4]);
      assert Pow10(4) == 10000;
      var t := Date(DigitsValue(s[..4]), DigitsValue(s[4..6]), DigitsValue(s[6..]));
      if Valid(t) then Some(t) else None
  }

  /**
   * Time.Format("20060102"): the year padded to four digits (more when it
   * needs them, a '-' in front when negative), month and day to two.
   */
  function FormatDate(t: Date): (s: string)
    ensures |s| >= 8
  {
    Decimal(t.year, 4) + Decimal(t.month, 2) + Decimal(t.day, 2)
  }

  /** Every date of the years 0..9999 is written in the layout and read back unchanged. */
  lemma FormatThenParse(t: Date)
    requires Valid(t) && 0 <= t.year <= 9999
    ensures ParseDate(FormatDate(t)) == Some(t)
  {
    var a, b, c := Padded(t.year, 4), Padded(t.month, 2), Padded(t.day, 2);
    assert Pow10(4) == 10000 && Pow10(2) == 100;
    PaddedWidth(t.year, 4);
    PaddedWidth(t.month, 2);
    PaddedWidth(t.day, 2);
    PaddedValue(t.year, 4);
    PaddedValue(t.month, 2);
    PaddedValue(t.day, 2);
    var s := FormatDate(t);
    assert s == a + b + c;
    assert s[..4] == a && s[4..6] == b && s[6..] == c;
    assert AllDigits(s) by {
      forall i | 0 <= i < |s| ensures IsDigit(s[i]) {
        if i < 4 { assert s[i] == a[i]; }
        else if i < 6 { assert s[i] == b[i - 4]; }
        else { assert s[i] == c[i - 6]; }
      }
    }
  }

  /** Every string the layout accepts is exactly how its date is written. */
  lemma ParseThenFormat(s: string)
    requires ParseDate(s).Some?
    ensures FormatDate(ParseDate(s).value) == s
  {
    var a, b, c := s[..4], s[4..6], s[6..];
    assert AllDigits(a) && AllDigits(b) && AllDigits(c);
    PaddedOfDigits(a);
    PaddedOfDigits(b);
    PaddedOfDigits(c);
    assert s == a + b + c;
  }
}
