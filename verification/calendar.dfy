/** Python's `datetime.date` as far as the task code uses it: calendar dates
    in years 1..9999, their order, the day after, and `isoformat()`. */
module Calendar {
  import opened Optional
  import opened Text

  datatype Date = Date(year: int, month: int, day: int)

  const MaxYear := 9999

  /** `datetime.date.max`; adding a day to it raises OverflowError. */
  const MaxDate := Date(MaxYear, 12, 31)

  predicate IsLeapYear(y: int) {
    y % 4 == 0 && (y % 100 != 0 || y % 400 == 0)
  }

  function DaysInMonth(y: int, m: int): int
    requires 1 <= m <= 12
  {
    if m == 2 then (if IsLeapYear(y) then 29 else 28)
    else if m == 4 || m == 6 || m == 9 || m == 11 then 30
    else 31
  }

  /** A date Python can represent. */
  predicate Valid(d: Date) {
    1 <= d.year <= MaxYear && 1 <= d.month <= 12 && 1 <= d.day <= DaysInMonth(d.year, d.month)
  }

  /** Python's `a < b` on dates: calendar order. */
  predicate Before(a: Date, b: Date) {
    a.year < b.year || (a.year == b.year && (a.month < b.month || (a.month == b.month && a.day < b.day)))
  }

  /** `d + timedelta(days=1)`: a later valid date with no valid date
      strictly between the two. */
  function NextDay(d: Date): (r: Date)
    requires Valid(d) && d != MaxDate
    ensures Valid(r) && Before(d, r)
    ensures forall e :: Valid(e) && Before(d, e) ==> !Before(e, r)
  {
    if d.day < DaysInMonth(d.year, d.month) then Date(d.year, d.month, d.day + 1)
    else if d.month < 12 then Date(d.year, d.month + 1, 1)
    else Date(d.year + 1, 1, 1)
  }

  /** `"%0*d" % (width, n)`: the decimal digits of `n`, left-padded with
      zeros to at least `width` characters. */
  function ZeroPad(n: nat, width: nat): (r: string)
    ensures IsDigits(r) && ParseDecimal(r) == n
    ensures |r| >= width
  {
    var digits := NatToDecimal(n);
    DecimalRoundTrip(n);
    if |digits| < width then
      LeadingZeros(width - |digits|, digits);
      Zeros(width - |digits|) + digits
    else digits
  }

  /** `date.isoformat()`: YYYY-MM-DD, ten characters for every valid date. */
  function IsoDate(d: Date): (r: string)
    requires Valid(d)
    ensures |r| == 10 && IsDigit(r[0])
  {
    PaddedWidth(d.year, 4);
    PaddedWidth(d.month, 2);
    PaddedWidth(d.day, 2);
    ZeroPad(d.year, 4) + "-" + ZeroPad(d.month, 2) + "-" + ZeroPad(d.day, 2)
  }

  /** A number below `10^width` pads to exactly `width` digits. */
  lemma PaddedWidth(n: nat, width: nat)
    requires width >= 1 && n < Pow10(width)
    ensures |ZeroPad(n, width)| == width
  {
    DecimalWidth(n, width, Pow10(width));
  }

  /** The slices `ReadIsoDate` takes of a YYYY-MM-DD string are its parts. */
  lemma IsoParts(y: string, m: string, d: string)
    requires |y| == 4 && |m| == 2 && |d| == 2
    ensures var s := y + "-" + m + "-" + d;
      |s| == 10 && s[4] == '-' && s[7] == '-' && s[..4] == y && s[5..7] == m && s[8..] == d
  {
    var s := y + "-" + m + "-" + d;
    assert s[..4] == y;
    assert s[5..7] == m;
    assert s[8..] == d;
  }

  /** Reads a YYYY-MM-DD string back into a valid date. */
  function ReadIsoDate(s: string): Option<Date> {
    if |s| == 10 && s[4] == '-' && s[7] == '-' && IsDigits(s[..4]) && IsDigits(s[5..7]) && IsDigits(s[8..]) then
      var d := Date(ParseDecimal(s[..4]), ParseDecimal(s[5..7]), ParseDecimal(s[8..]));
      if Valid(d) then Some(d) else None
    else None
  }

  /** `isoformat` loses nothing: reading its output back gives the date. */
  lemma IsoDateRoundTrip(d: Date)
    requires Valid(d)
    ensures ReadIsoDate(IsoDate(d)) == Some(d)
  {
    PaddedWidth(d.year, 4);
    PaddedWidth(d.month, 2);
    PaddedWidth(d.day, 2);
    IsoParts(ZeroPad(d.year, 4), ZeroPad(d.month, 2), ZeroPad(d.day, 2));
  }
}
