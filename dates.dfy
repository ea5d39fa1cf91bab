/** reformatear_fecha of app.py: a date string is read with
    datetime.strptime, first as "%d-%m-%y" and then as "%d/%m/%Y", and the
    first format that reads it gives the date written back with
    strftime("%d/%m/%Y"); a string neither format reads is kept as it is.

    strptime is modelled for these two formats exactly as Python's _strptime
    reads them: each directive is a regular expression (%d is
    3[01]|[12]\d|0[1-9]|[1-9]| [1-9], %m is 1[0-2]|0[1-9]|[1-9], %y is \d\d,
    %Y is \d\d\d\d), the whole string must be consumed, a two-digit year
    00-68 is 20xx and 69-99 is 19xx, and the date must exist in the
    proleptic Gregorian calendar with a year from 1 to 9999. */
module Dates {
  import opened Options
  import opened Text
  import opened Amounts

  datatype Date = Date(day: nat, month: nat, year: nat)

  /** The two formats tried, in the order they are tried. */
  datatype Format = DashedShort | SlashedLong {
    /** The character between the fields: "%d-%m-%y" or "%d/%m/%Y". */
    function Separator(): char {
      if this == DashedShort then '-' else '/'
    }

    /** %y reads two digits, %Y four. */
    function YearDigits(): nat {
      if this == DashedShort then 2 else 4
    }
  }

  // ---------------------------------------------------------------------------
  // The calendar

  predicate IsLeap(year: nat) {
    year % 4 == 0 && (year % 100 != 0 || year % 400 == 0)
  }

  function DaysInMonth(year: nat, month: nat): (r: nat)
    requires 1 <= month <= 12
    ensures 28 <= r <= 31
    ensures month == 2 ==> (r == 29 <==> IsLeap(year))
  {
    if month == 2 then (if IsLeap(year) then 29 else 28)
    else if month == 4 || month == 6 || month == 9 || month == 11 then 30
    else 31
  }

  /** A date the datetime module can represent. */
  predicate Valid(d: Date) {
    1 <= d.year <= 9999 && 1 <= d.month <= 12 && 1 <= d.day <= DaysInMonth(d.year, d.month)
  }

  /** The century window of %y. */
  function PivotYear(yy: nat): (r: nat)
    requires yy < 100
    ensures 1969 <= r <= 2068 && r % 100 == yy
    ensures r < 2000 <==> yy >= 69
  {
    if yy <= 68 then 2000 + yy else 1900 + yy
  }

  // ---------------------------------------------------------------------------
  // strptime

  /** The value of two decimal digits. */
  lemma TwoDigitValue(t: string)
    requires |t| == 2 && AllDigits(t)
    ensures NatValue(t) == DigitValue(t[0]) * 10 + DigitValue(t[1])
  {
    assert t[..1][..0] == [] && t[..1][0] == t[0];
    assert NatValue(t[..1]) == DigitValue(t[0]);
  }

  /** The value of four decimal digits, from its two halves. */
  lemma FourDigitValue(t: string)
    requires |t| == 4 && AllDigits(t)
    ensures NatValue(t) == NatValue(t[..2]) * 100 + NatValue(t[2..])
    ensures NatValue(t) < 10000
  {
    var h, l := t[..2], t[2..];
    TwoDigitValue(h);
    TwoDigitValue(l);
    assert t[..3][..2] == h && t[..3][2] == l[0] && t[3] == l[1];
    assert NatValue(t[..3]) == NatValue(h) * 10 + DigitValue(l[0]);
  }

  /** The year %y or %Y reads from its digits. */
  function YearValue(year: string, f: Format): (r: nat)
    requires |year| == f.YearDigits() && AllDigits(year)
    ensures r <= 9999
  {
    if f == DashedShort then TwoDigitValue(year); PivotYear(NatValue(year))
    else FourDigitValue(year); NatValue(year)
  }

  predicate NonZeroDigit(c: char) { '1' <= c <= '9' }

  /** The text %d accepts: 3[01]|[12]\d|0[1-9]|[1-9]| [1-9]. */
  predicate DayField(t: string) {
    (|t| == 1 && NonZeroDigit(t[0]))
    || (|t| == 2 && ((t[0] == '3' && (t[1] == '0' || t[1] == '1'))
                     || ((t[0] == '1' || t[0] == '2') && IsDigit(t[1]))
                     || ((t[0] == '0' || t[0] == ' ') && NonZeroDigit(t[1]))))
  }

  /** The text %m accepts: 1[0-2]|0[1-9]|[1-9]. */
  predicate MonthField(t: string) {
    (|t| == 1 && NonZeroDigit(t[0]))
    || (|t| == 2 && ((t[0] == '1' && '0' <= t[1] <= '2') || (t[0] == '0' && NonZeroDigit(t[1]))))
  }

  /** int() of a field %d or %m accepted. */
  function FieldValue(t: string): (r: nat)
    requires DayField(t) || MonthField(t)
    ensures DayField(t) ==> 1 <= r <= 31
    ensures MonthField(t) ==> 1 <= r <= 12
  {
    if |t| == 1 then DigitValue(t[0])
    else (if t[0] == ' ' then 0 else DigitValue(t[0])) * 10 + DigitValue(t[1])
  }

  /** The three fields of a date around two separators. */
  function Fields(a: string, sep: char, b: string, c: string): string {
    a + [sep] + b + [sep] + c
  }

  /** The date three fields of format f denote, if they are fields of f and
      the date exists. The year must use up the rest of the string. */
  function ReadFields(day: string, month: string, year: string, f: Format): (r: Option<Date>)
    ensures r.Some? ==> Valid(r.value)
  {
    if DayField(day) && MonthField(month) && |year| == f.YearDigits() && AllDigits(year) then
      var d := Date(FieldValue(day), FieldValue(month), YearValue(year, f));
      if Valid(d) then Some(d) else None
    else None
  }

  /** datetime.strptime(s, f) as a value, None where it raises ValueError.
      None of the fields %d and %m accept contains a separator, so the day is
      the text before the first separator, the month the text between the
      first two, and the year the rest. */
  function Parse(s: string, f: Format): (r: Option<Date>)
    ensures r.Some? ==> Valid(r.value)
    ensures f.Separator() !in s ==> r.None?
  {
    var sep := f.Separator();
    if sep !in s then None
    else
      var i := IndexOf(s, sep);
      var rest := s[i + 1..];
      if sep !in rest then None
      else
        var j := IndexOf(rest, sep);
        ReadFields(s[..i], rest[..j], rest[j + 1..], f)
  }

  // ---------------------------------------------------------------------------
  // strftime("%d/%m/%Y")

  function DigitChar(n: nat): (c: char)
    requires n < 10
    ensures IsDigit(c) && DigitValue(c) == n
  {
    ('0' as int + n) as char
  }

  /** n with two digits, zero-padded. */
  function Pad2(n: nat): (r: string)
    requires n < 100
    ensures |r| == 2 && AllDigits(r) && NatValue(r) == n
  {
    var r := [DigitChar(n / 10), DigitChar(n % 10)];
    TwoDigitValue(r);
    r
  }

  /** n with four digits, zero-padded. */
  function Pad4(n: nat): (r: string)
    requires n < 10000
    ensures |r| == 4 && AllDigits(r) && NatValue(r) == n
  {
    var r := Pad2(n / 100) + Pad2(n % 100);
    assert r[..2] == Pad2(n / 100) && r[2..] == Pad2(n % 100);
    FourDigitValue(r);
    r
  }

  /** strftime("%d/%m/%Y"). */
  function Render(d: Date): (r: string)
    requires Valid(d)
    ensures |r| == 10 && r[2] == '/' && r[5] == '/'
  {
    Fields(Pad2(d.day), '/', Pad2(d.month), Pad4(d.year))
  }

  // ---------------------------------------------------------------------------
  // reformatear_fecha

  /** The formats in the order the loop tries them. */
  const Formats: seq<Format> := [DashedShort, SlashedLong]

  /** What reformatear_fecha returns. */
  function Reformatted(s: string): string {
    match Parse(s, DashedShort)
    case Some(d) => Render(d)
    case None =>
      match Parse(s, SlashedLong)
      case Some(d) => Render(d)
      case None => s
  }

  /** reformatear_fecha: the first format that reads the string decides. */
  method ReformatDate(s: string) returns (r: string)
    ensures r == Reformatted(s)
  {
    var k := 0;
    while k < |Formats|
      invariant 0 <= k <= |Formats|
      invariant k > 0 ==> Parse(s, DashedShort).None?
      invariant k > 1 ==> Parse(s, SlashedLong).None?
    {
      var d := Parse(s, Formats[k]);
      if d.Some? {
        return Render(d.value);
      }
      k := k + 1;
    }
    return s;
  }

  // ---------------------------------------------------------------------------
  // Properties

  /** Reading up to the first separator. */
  lemma SplitAtSeparator(a: string, sep: char, b: string)
    requires sep !in a
    ensures sep in a + [sep] + b
    ensures IndexOf(a + [sep] + b, sep) == |a|
    ensures (a + [sep] + b)[..|a|] == a && (a + [sep] + b)[|a| + 1..] == b
  {
    var s := a + [sep] + b;
    assert s[|a|] == sep;
    assert s[..|a|] == a;
  }

  /** A character other than a digit and the separator is not among the
      fields of a date written in digits. */
  lemma FieldsAvoid(a: string, sep: char, b: string, c: string, x: char)
    requires AllDigits(a) && AllDigits(b) && AllDigits(c) && !IsDigit(x) && x != sep
    ensures x !in Fields(a, sep, b, c)
  {
    assert x !in a && x !in b && x !in c;
  }

  /** Fields without the separator in the day and the month are read as
      those fields. */
  lemma ParseFields(a: string, b: string, c: string, f: Format)
    requires f.Separator() !in a && f.Separator() !in b
    ensures Parse(Fields(a, f.Separator(), b, c), f) == ReadFields(a, b, c, f)
  {
    var sep := f.Separator();
    var s, rest := Fields(a, sep, b, c), b + [sep] + c;
    assert s == a + [sep] + rest;
    SplitAtSeparator(a, sep, rest);
    SplitAtSeparator(b, sep, c);
    ParseAt(s, f, |a|, |b|);
  }

  /** strptime with the first separator at i and the next one j further on. */
  lemma ParseAt(s: string, f: Format, i: nat, j: nat)
    requires i < |s| && s[i] == f.Separator() && f.Separator() !in s[..i]
    requires j < |s[i + 1..]| && s[i + 1..][j] == f.Separator() && f.Separator() !in s[i + 1..][..j]
    ensures Parse(s, f) == ReadFields(s[..i], s[i + 1..][..j], s[i + 1..][j + 1..], f)
  {
    IndexOfIs(s, f.Separator(), i);
    IndexOfIs(s[i + 1..], f.Separator(), j);
  }

  /** Two digits from 01 to 31 are a %d field, from 01 to 12 a %m field, and
      either way they read as their value. */
  lemma TwoDigitFields(t: string)
    requires |t| == 2 && AllDigits(t)
    ensures DayField(t) <==> 1 <= NatValue(t) <= 31
    ensures MonthField(t) <==> 1 <= NatValue(t) <= 12
    ensures DayField(t) || MonthField(t) ==> FieldValue(t) == NatValue(t)
    ensures NatValue(t) < 100
  {
    TwoDigitValue(t);
  }

  /** Two digits are the padding of their value. */
  lemma PadOfDigits(t: string)
    requires |t| == 2 && AllDigits(t)
    ensures NatValue(t) < 100 && Pad2(NatValue(t)) == t
  {
    TwoDigitFields(t);
    var r := Pad2(NatValue(t));
    assert r[0] == t[0] && r[1] == t[1];
  }

  /** The padded value of a day or month is a field that reads as it. */
  lemma PaddedFields(n: nat)
    requires 1 <= n <= 31
    ensures DayField(Pad2(n)) && FieldValue(Pad2(n)) == n
    ensures n <= 12 ==> MonthField(Pad2(n)) && FieldValue(Pad2(n)) == n
  {
    TwoDigitFields(Pad2(n));
  }

  /** strptime with "%d/%m/%Y" reads back what strftime("%d/%m/%Y") wrote, and
      "%d-%m-%y" does not read it. */
  lemma {:induction false} RenderParses(d: Date)
    requires Valid(d)
    ensures Parse(Render(d), SlashedLong) == Some(d)
    ensures Parse(Render(d), DashedShort) == None
  {
    var a, b, c := Pad2(d.day), Pad2(d.month), Pad4(d.year);
    ParseFields(a, b, c, SlashedLong);
    FourDigitValue(c);
    PaddedFields(d.day);
    PaddedFields(d.month);
    FieldsAvoid(a, '/', b, c, '-');
  }

  /** A date already written as DD/MM/YYYY is kept as it is. */
  lemma CanonicalUnchanged(d: Date)
    requires Valid(d)
    ensures Reformatted(Render(d)) == Render(d)
  {
    RenderParses(d);
  }

  /** Reformatting twice is reformatting once. */
  lemma Idempotent(s: string)
    ensures Reformatted(Reformatted(s)) == Reformatted(s)
  {
    match Parse(s, DashedShort)
    case Some(d) => CanonicalUnchanged(d);
    case None =>
      match Parse(s, SlashedLong)
      case Some(d) => CanonicalUnchanged(d);
      case None =>
  }

  /** What reformatting gives is either the string itself or a date written
      DD/MM/YYYY that one of the two formats read. */
  lemma ReformattedShape(s: string)
    ensures Reformatted(s) == s
            || exists d: Date :: Valid(d) && Reformatted(s) == Render(d)
                                 && (Parse(s, DashedShort) == Some(d) || Parse(s, SlashedLong) == Some(d))
  {
    match Parse(s, DashedShort)
    case Some(d) =>
    case None =>
      match Parse(s, SlashedLong)
      case Some(d) =>
      case None =>
  }

  /** A DD-MM-YY date, as the Provincia pattern captures it, becomes
      DD/MM/YYYY with the year taken from the century window when the date
      exists, and is kept as it is when it does not (30-02-23, 00-01-23). */
  lemma {:induction false} ShortDateReformatted(a: string, b: string, c: string)
    requires |a| == 2 && |b| == 2 && |c| == 2 && AllDigits(a) && AllDigits(b) && AllDigits(c)
    ensures Valid(Date(NatValue(a), NatValue(b), YearValue(c, DashedShort))) ==>
              Reformatted(Fields(a, '-', b, c)) == Fields(a, '/', b, Pad4(YearValue(c, DashedShort)))
    ensures !Valid(Date(NatValue(a), NatValue(b), YearValue(c, DashedShort))) ==>
              Reformatted(Fields(a, '-', b, c)) == Fields(a, '-', b, c)
  {
    var s := Fields(a, '-', b, c);
    ParseFields(a, b, c, DashedShort);
    TwoDigitFields(a);
    TwoDigitFields(b);
    PadOfDigits(a);
    PadOfDigits(b);
    FieldsAvoid(a, '-', b, c, '/');
  }

  /** 30-02-23 does not exist and is kept as it is. */
  lemma ExampleImpossibleDate(s: string)
    requires s == "30-02-23"
    ensures Reformatted(s) == s
  {
    var a, b, c := s[..2], s[3..5], s[6..];
    assert s == Fields(a, '-', b, c);
    TwoDigitValue(a);
    TwoDigitValue(b);
    ShortDateReformatted(a, b, c);
  }
}
