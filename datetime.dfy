/**
 * The "yyyyMMdd'T'HH:mm:ss" layout the codec uses for dateTime.iso8601 values, on calendar
 * fields that are already in the connection's time zone.
 */
module DateTime {
  import opened Wrappers
  import opened Decimal

  /** The calendar fields of a point in time, as the formatter sees them. */
  datatype Moment = Moment(year: nat, month: nat, day: nat, hour: nat, minute: nat, second: nat)

  /** Fields that fit the layout: a four-digit year and two digits for every other field. */
  predicate FitsLayout(m: Moment)
  {
    m.year < 10000 && m.month < 100 && m.day < 100 && m.hour < 100 && m.minute < 100 && m.second < 100
  }

  /** The formatter's text: every field zero-padded to its width, a 'T' and two ':' separators. */
  function Format(m: Moment): string
  {
    Padded(m.year, 4) + Padded(m.month, 2) + Padded(m.day, 2) + "T" +
    Padded(m.hour, 2) + ":" + Padded(m.minute, 2) + ":" + Padded(m.second, 2)
  }

  /**
   * The parser's reading of the same layout: exactly seventeen characters, digits in the field
   * positions and the separators in between; None (ParseException) otherwise.
   */
  function Parse(s: string): Option<Moment>
  {
    if |s| == 17 && AllDigits(s[0..4]) && AllDigits(s[4..6]) && AllDigits(s[6..8]) && s[8] == 'T' &&
       AllDigits(s[9..11]) && s[11] == ':' && AllDigits(s[12..14]) && s[14] == ':' && AllDigits(s[15..17])
    then
      Some(Moment(DigitsValue(s[0..4]), DigitsValue(s[4..6]), DigitsValue(s[6..8]),
                  DigitsValue(s[9..11]), DigitsValue(s[12..14]), DigitsValue(s[15..17])))
    else None
  }

  /** The slices of a text laid out as the formatter writes it. */
  lemma LayoutSlices(y: string, mo: string, d: string, h: string, mi: string, se: string)
    requires |y| == 4 && |mo| == 2 && |d| == 2 && |h| == 2 && |mi| == 2 && |se| == 2
    ensures var s := y + mo + d + "T" + h + ":" + mi + ":" + se;
      |s| == 17 && s[0..4] == y && s[4..6] == mo && s[6..8] == d && s[8] == 'T' &&
      s[9..11] == h && s[11] == ':' && s[12..14] == mi && s[14] == ':' && s[15..17] == se
  {
  }

  /** Parsing what the formatter wrote gives back the same fields. */
  lemma ParseFormat(m: Moment)
    requires FitsLayout(m)
    ensures Parse(Format(m)) == Some(m)
  {
    PaddedWidth(m.year, 4);
    PaddedWidth(m.month, 2);
    PaddedWidth(m.day, 2);
    PaddedWidth(m.hour, 2);
    PaddedWidth(m.minute, 2);
    PaddedWidth(m.second, 2);
    LayoutSlices(Padded(m.year, 4), Padded(m.month, 2), Padded(m.day, 2),
                 Padded(m.hour, 2), Padded(m.minute, 2), Padded(m.second, 2));
  }

  /** Distinct fields that fit the layout are written as distinct texts. */
  lemma FormatInjective(m1: Moment, m2: Moment)
    requires FitsLayout(m1) && FitsLayout(m2) && Format(m1) == Format(m2)
    ensures m1 == m2
  {
    ParseFormat(m1);
    ParseFormat(m2);
  }

  /** The test vectors: 5 October 1972 at midnight and at 23:03:54. */
  lemma FormatExampleMidnight(m: Moment)
    requires m == Moment(1972, 10, 5, 0, 0, 0)
    ensures Format(m) == "19721005T00:00:00"
  {
    ExampleDay();
    ExampleZero();
    FormatPieces(m, "19721005", "00", "00", "00");
    MidnightText();
  }

  lemma ExampleZero()
    ensures Padded(0, 2) == "00"
  {
    PaddedTwo(0, 0);
  }

  lemma MidnightText()
    ensures "19721005" + "T" + "00" + ":" + "00" + ":" + "00" == "19721005T00:00:00"
  {
  }

  lemma FormatExampleEvening(m: Moment)
    requires m == Moment(1972, 10, 5, 23, 3, 54)
    ensures Format(m) == "19721005T23:03:54"
  {
    ExampleDay();
    ExampleTime();
    FormatPieces(m, "19721005", "23", "03", "54");
    EveningText();
  }

  lemma ExampleTime()
    ensures Padded(23, 2) == "23" && Padded(3, 2) == "03" && Padded(54, 2) == "54"
  {
    PaddedTwo(2, 3);
    PaddedTwo(0, 3);
    PaddedTwo(5, 4);
    assert DigitChar(0) == '0' && DigitChar(2) == '2' && DigitChar(3) == '3';
    assert DigitChar(4) == '4' && DigitChar(5) == '5';
  }

  lemma EveningText()
    ensures "19721005" + "T" + "23" + ":" + "03" + ":" + "54" == "19721005T23:03:54"
  {
  }

  lemma FormatPieces(m: Moment, date: string, h: string, mi: string, se: string)
    requires Padded(m.year, 4) + Padded(m.month, 2) + Padded(m.day, 2) == date
    requires Padded(m.hour, 2) == h && Padded(m.minute, 2) == mi && Padded(m.second, 2) == se
    ensures Format(m) == date + "T" + h + ":" + mi + ":" + se
  {
  }

  lemma ExampleDay()
    ensures Padded(1972, 4) + Padded(10, 2) + Padded(5, 2) == "19721005"
  {
    PaddedFour(1, 9, 7, 2);
    PaddedTwo(1, 0);
    PaddedTwo(0, 5);
    assert DigitChar(0) == '0' && DigitChar(1) == '1' && DigitChar(2) == '2' && DigitChar(5) == '5';
    assert DigitChar(7) == '7' && DigitChar(9) == '9';
  }

  lemma PaddedTwo(a: nat, b: nat)
    requires a < 10 && b < 10
    ensures Padded(a * 10 + b, 2) == [DigitChar(a), DigitChar(b)]
  {
    if a > 0 {
      AppendDigit(a, b);
    }
  }

  lemma PaddedFour(a: nat, b: nat, c: nat, d: nat)
    requires 1 <= a < 10 && b < 10 && c < 10 && d < 10
    ensures Padded(a * 1000 + b * 100 + c * 10 + d, 4) == [DigitChar(a), DigitChar(b), DigitChar(c), DigitChar(d)]
  {
    var n1 := a * 10 + b;
    var n2 := n1 * 10 + c;
    var n3 := n2 * 10 + d;
    AppendDigit(a, b);
    AppendDigit(n1, c);
    AppendDigit(n2, d);
    assert NatToString(n3) == [DigitChar(a), DigitChar(b), DigitChar(c), DigitChar(d)];
    assert n3 == a * 1000 + b * 100 + c * 10 + d;
  }

  /** Writing one more digit after a positive number. */
  lemma AppendDigit(n: nat, d: nat)
    requires n >= 1 && d < 10
    ensures NatToString(n * 10 + d) == NatToString(n) + [DigitChar(d)]
  {
    var m := n * 10 + d;
    assert m / 10 == n && m % 10 == d;
  }
}
