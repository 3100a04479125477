/** The month string the admin page sends to `listByMonth`, and its round
    trip through the service's parser. */
module AdminPage {
  import opened Common
  import opened JsString
  import opened JsDate
  import opened Events

  /** The two digits of a month number 1..12, zero-padded
      (`String(m).padStart(2, "0")`). */
  function MonthDigits(m: int): (r: string)
    requires 1 <= m <= 12
    ensures |r| == 2 && AllDigits(r) && DecimalValue(r) == m
  {
    var r := PadStart(NatToDecimal(m), 2, '0');
    if m < 10 then
      assert NatToDecimal(m) == [DigitChar(m)];
      assert r == ['0', DigitChar(m)];
      assert r[..1] == ['0'];
      r
    else
      assert NatToDecimal(m) == NatToDecimal(m / 10) + [DigitChar(m % 10)];
      assert |NatToDecimal(m)| == 2;
      r
  }

  /** `toMonthStr(d)` for a date whose local calendar year is `year` and
      whose month (`getMonth()`, 0 = January) is `monthIndex`: the year as
      `String` writes it, a '-', then the month number 1..12 on two digits. */
  function ToMonthStr(year: int, monthIndex: int): (r: string)
    requires 0 <= monthIndex < 12
    ensures |r| >= 4 && r[|r| - 3] == '-'
    ensures AllDigits(r[|r| - 2..]) && DecimalValue(r[|r| - 2..]) == monthIndex + 1
  {
    var md := MonthDigits(monthIndex + 1);
    var r := IntToDecimal(year) + "-" + md;
    assert r[|r| - 2..] == md;
    r
  }

  /** The round trip: for a year of at least 1 the service reads back the
      page's year and month number. */
  lemma MonthStrRoundTrip(year: int, monthIndex: int)
    requires year >= 1 && 0 <= monthIndex < 12
    ensures ParseMonthArg(Some(ToMonthStr(year, monthIndex))) == MonthArg(Int(year), Int(monthIndex + 1))
  {
    var ys := NatToDecimal(year);
    var md := MonthDigits(monthIndex + 1);
    var s := ToMonthStr(year, monthIndex);
    assert s == ys + "-" + md by {
      assert IntToDecimal(year) == ys;
    }
    ParseYearMonth(ys, md);
    assert DecimalValue(ys) == year && DecimalValue(md) == monthIndex + 1;
  }

  /** So the service accepts the page's string and lists the window of that
      month, `Date.UTC(year, monthIndex, 1)` up to the next month's start. */
  lemma MonthStrAccepted(year: int, monthIndex: int)
    requires year >= 1 && 0 <= monthIndex < 12
    ensures !MonthArgRejected(ParseMonthArg(Some(ToMonthStr(year, monthIndex))))
    ensures MonthWindow(ParseMonthArg(Some(ToMonthStr(year, monthIndex))))
            == (UtcMonthStart(year, monthIndex), UtcMonthStart(year, monthIndex + 1))
  {
    MonthStrRoundTrip(year, monthIndex);
    ParsedAs(Some(ToMonthStr(year, monthIndex)), year, monthIndex + 1);
    ParsedAsWindow(Some(ToMonthStr(year, monthIndex)), year, monthIndex);
  }

  /** The page's string for a year below 1 is refused: year 0 reads as the
      falsy 0, and a negative year starts with '-', so its first piece is
      empty and reads as NaN. */
  lemma MonthStrBeforeYearOneRefused(year: int, monthIndex: int)
    requires year < 1 && 0 <= monthIndex < 12
    ensures ListByMonth([], [], Some(ToMonthStr(year, monthIndex))) == Err(BadRequest(InvalidMonth))
  {
    var s := ToMonthStr(year, monthIndex);
    var md := MonthDigits(monthIndex + 1);
    if year == 0 {
      assert IntToDecimal(0) == "0";
      ParseYearMonth("0", md);
    } else {
      assert s[0] == '-';
      assert Split(s, '-')[0] == [];
    }
  }
}
