/** The values the scoring rules read out of validated fields: an amount in exact
    integer cents, the day of the purchase date, and the hour and minute of the
    purchase time. Each is total on the strings its field pattern admits. */
module Parsing {
  import opened Text
  import opened Receipts

  /** An amount "D...D.CC" in cents: the whole units times 100 plus the two
      fractional digits. */
  function Cents(s: string): (c: nat)
    requires IsMoney(s)
  {
    DigitsValue(s[..|s| - 3]) * 100 + DigitsValue(s[|s| - 2..])
  }

  /** The cents of an amount are the exact value of its decimal digits with the
      point left out, that is of the decimal times 100. */
  lemma CentsAreScaledValue(s: string)
    requires IsMoney(s)
    ensures AllDigits(s[..|s| - 3] + s[|s| - 2..])
    ensures Cents(s) == DigitsValue(s[..|s| - 3] + s[|s| - 2..])
  {
    DigitsValueAppend(s[..|s| - 3], s[|s| - 2..]);
  }

  /** The cents of an amount are its last two digits, the whole units the digits before the point. */
  lemma CentsFraction(s: string)
    requires IsMoney(s)
    ensures Cents(s) % 100 == 10 * DigitValue(s[|s| - 2]) + DigitValue(s[|s| - 1])
    ensures Cents(s) / 100 == DigitsValue(s[..|s| - 3])
  {
    TwoDigits(s[|s| - 2..]);
    SplitHundreds(DigitsValue(s[..|s| - 3]), DigitsValue(s[|s| - 2..]));
  }

  lemma SplitHundreds(x: nat, y: nat)
    requires y < 100
    ensures (x * 100 + y) % 100 == y && (x * 100 + y) / 100 == x
  {
  }

  /** The canonical spelling of a number of cents, with two fractional digits. */
  function FormatCents(c: nat): (s: string)
  {
    DigitsOf(c / 100) + ['.', DigitChar(c % 100 / 10), DigitChar(c % 10)]
  }

  /** Every number of cents has a spelling the money pattern accepts and that
      parses back to it. */
  lemma CentsRoundTrip(c: nat)
    ensures IsMoney(FormatCents(c)) && Cents(FormatCents(c)) == c
  {
    var s := FormatCents(c);
    var whole := DigitsOf(c / 100);
    assert s[..|s| - 3] == whole;
    assert s[|s| - 3] == '.';
    var frac := s[|s| - 2..];
    assert frac == [DigitChar(c % 100 / 10), DigitChar(c % 10)];
    TwoDigits(frac);
    DigitsRoundTrip(c / 100);
    DigitsValueAppend(whole, frac);
  }

  /** purchaseDate.split("-") on a valid date gives the year, month and day fields. */
  lemma DateFields(d: string)
    requires IsDate(d)
    ensures Split(d, '-') == [d[..4], d[5..7], d[8..]]
  {
    var f := [d[..4], d[5..7], d[8..]];
    assert Join(f[2..], '-') == d[8..];
    assert Join(f[1..], '-') == d[5..];
    assert Join(f, '-') == d;
    forall k | 0 <= k < 3 ensures '-' !in f[k] {
      assert forall c :: c in f[k] ==> IsDigit(c);
    }
    SplitJoin(f, '-');
  }

  /** int(purchaseDate.split("-")[2]): the day of the month as written, read off
      its two digits (DayIsThirdField relates it to the split). */
  function Day(d: string): (day: nat)
    requires IsDate(d)
  {
    10 * DigitValue(d[8]) + DigitValue(d[9])
  }

  /** Day is the value of the third '-'-separated field of the date. */
  lemma DayIsThirdField(d: string)
    requires IsDate(d)
    ensures |Split(d, '-')| == 3 && AllDigits(Split(d, '-')[2])
    ensures Day(d) == DigitsValue(Split(d, '-')[2])
  {
    DateFields(d);
    TwoDigits(d[8..]);
  }

  /** purchaseTime.split(":") on a valid time gives exactly the two fields. */
  lemma TimeFields(t: string)
    requires IsTime(t)
    ensures Split(t, ':') == [t[..2], t[3..]]
  {
    var f := [t[..2], t[3..]];
    assert Join(f[1..], ':') == t[3..];
    assert Join(f, ':') == t;
    forall k | 0 <= k < 2 ensures ':' !in f[k] {
      assert forall c :: c in f[k] ==> IsDigit(c);
    }
    SplitJoin(f, ':');
  }

  /** hour, minute = map(int, purchaseTime.split(":")), read off the two digits of
      each field (HourMinuteAreFields relates them to the split). */
  function HourMinute(t: string): (hm: (nat, nat))
    requires IsTime(t)
  {
    (10 * DigitValue(t[0]) + DigitValue(t[1]), 10 * DigitValue(t[3]) + DigitValue(t[4]))
  }

  /** The hour and minute are the values of the two ':'-separated fields of the time. */
  lemma HourMinuteAreFields(t: string)
    requires IsTime(t)
    ensures |Split(t, ':')| == 2 && AllDigits(Split(t, ':')[0]) && AllDigits(Split(t, ':')[1])
    ensures HourMinute(t) == (DigitsValue(Split(t, ':')[0]), DigitsValue(Split(t, ':')[1]))
  {
    TimeFields(t);
    TwoDigits(t[..2]);
    TwoDigits(t[3..]);
  }
}
