/** The text conversions the handler applies to CSV cells and headers:
    `str.lower()`, `int()` and `datetime.strptime(v, '%m/%d/%Y')`, each over
    ASCII text, with a formatter as the partner each parser inverts. */
module Parsing {
  import opened Documents

  // ---------------------------------------------------------------- lower()

  predicate IsUpper(c: char) { 'A' <= c <= 'Z' }

  function LowerChar(c: char): (r: char)
    ensures !IsUpper(r)
    ensures IsUpper(c) ==> r as int == c as int + 32
    ensures !IsUpper(c) ==> r == c
  {
    if IsUpper(c) then (c as int + 32) as char else c
  }

  /** `s.lower()` on ASCII letters. */
  function Lower(s: string): (r: string)
    ensures |r| == |s|
    ensures forall i :: 0 <= i < |s| ==> r[i] == LowerChar(s[i])
  {
    if s == [] then [] else [LowerChar(s[0])] + Lower(s[1..])
  }

  /** Lower-casing leaves no upper-case letter, so doing it twice changes nothing more. */
  lemma LowerIsIdempotent(s: string)
    ensures forall i :: 0 <= i < |Lower(s)| ==> !IsUpper(Lower(s)[i])
    ensures Lower(Lower(s)) == Lower(s)
  {
  }

  // ------------------------------------------------------------------ int()

  predicate IsDigit(c: char) { '0' <= c <= '9' }

  function DigitValue(c: char): (d: nat)
    requires IsDigit(c)
    ensures d < 10
  {
    c as int - '0' as int
  }

  function DigitChar(d: nat): (c: char)
    requires d < 10
    ensures IsDigit(c) && DigitValue(c) == d
  {
    ('0' as int + d) as char
  }

  /** The ASCII characters Python's `str.isspace()` accepts. */
  predicate IsSpace(c: char) {
    c == ' ' || 9 <= c as int <= 13 || 28 <= c as int <= 31
  }

  function TrimStart(s: string): (r: string)
    ensures |r| <= |s| && r == s[|s| - |r|..]
    ensures r != [] ==> !IsSpace(r[0])
  {
    if s != [] && IsSpace(s[0]) then TrimStart(s[1..]) else s
  }

  function TrimEnd(s: string): (r: string)
    ensures |r| <= |s| && r == s[..|r|]
    ensures r != [] ==> !IsSpace(r[|r| - 1])
  {
    if s != [] && IsSpace(s[|s| - 1]) then TrimEnd(s[..|s| - 1]) else s
  }

  /** `s.strip()`, as `int()` applies it to its argument. */
  function Trim(s: string): string {
    TrimEnd(TrimStart(s))
  }

  /** Decimal digits, with single underscores allowed between two digits. */
  predicate IsNumeral(t: string) {
    && |t| > 0 && IsDigit(t[0]) && IsDigit(t[|t| - 1])
    && (forall i :: 0 <= i < |t| ==> IsDigit(t[i]) || t[i] == '_')
    && (forall i :: 0 < i < |t| ==> IsDigit(t[i]) || IsDigit(t[i - 1]))
  }

  /** The number a numeral denotes, underscores skipped. */
  function NumeralValue(t: string): nat
    requires forall i :: 0 <= i < |t| ==> IsDigit(t[i]) || t[i] == '_'
  {
    if t == [] then 0
    else if t[|t| - 1] == '_' then NumeralValue(t[..|t| - 1])
    else 10 * NumeralValue(t[..|t| - 1]) + DigitValue(t[|t| - 1])
  }

  /** `int(s)`: None where Python raises ValueError. */
  function ParseInt(s: string): Option<int> {
    var t := Trim(s);
    if |t| > 0 && (t[0] == '+' || t[0] == '-') then
      if IsNumeral(t[1..]) then
        var n: int := NumeralValue(t[1..]);
        Some(if t[0] == '-' then -n else n)
      else None
    else if IsNumeral(t) then Some(NumeralValue(t))
    else None
  }

  /** Decimal notation of a natural number, without leading zeros. */
  function Decimal(n: nat): (s: string)
    ensures |s| > 0 && forall i :: 0 <= i < |s| ==> IsDigit(s[i])
  {
    if n < 10 then [DigitChar(n)] else Decimal(n / 10) + [DigitChar(n % 10)]
  }

  /** `str(n)` for an integer. */
  function ShowInt(n: int): string {
    if n < 0 then "-" + Decimal(-n) else Decimal(n)
  }

  lemma {:induction false} DecimalValue(n: nat)
    ensures IsNumeral(Decimal(n)) && NumeralValue(Decimal(n)) == n
  {
    if n >= 10 {
      DecimalValue(n / 10);
      var s := Decimal(n);
      assert s[..|s| - 1] == Decimal(n / 10);
    }
  }

  lemma TrimUnspaced(s: string)
    requires s != [] && !IsSpace(s[0]) && !IsSpace(s[|s| - 1])
    ensures Trim(s) == s
  {
  }

  /** `int(str(n)) == n`. */
  lemma {:induction false} ParseShowInt(n: int)
    ensures ParseInt(ShowInt(n)) == Some(n)
  {
    var s := ShowInt(n);
    TrimUnspaced(s);
    if n < 0 {
      DecimalValue(-n);
      assert s[1..] == Decimal(-n);
    } else {
      DecimalValue(n);
    }
  }

  // --------------------------------------------------- strptime('%m/%d/%Y')

  function DaysInMonth(year: int, month: int): int {
    if month == 2 then
      (if year % 4 == 0 && (year % 100 != 0 || year % 400 == 0) then 29 else 28)
    else if month == 4 || month == 6 || month == 9 || month == 11 then 30
    else 31
  }

  /** A date `datetime` accepts. */
  predicate ValidDate(d: Date) {
    1 <= d.year <= 9999 && 1 <= d.month <= 12 && 1 <= d.day <= DaysInMonth(d.year, d.month)
  }

  /** Splits at the first `sep`. */
  function SplitAt(s: string, sep: char): (r: Option<(string, string)>)
    ensures r.Some? ==> s == r.value.0 + [sep] + r.value.1 && sep !in r.value.0
    ensures r.None? ==> sep !in s
  {
    if s == [] then None
    else if s[0] == sep then Some(([], s[1..]))
    else match SplitAt(s[1..], sep)
      case None => None
      case Some((a, b)) => Some(([s[0]] + a, b))
  }

  /** `%m`: `1[0-2]|0[1-9]|[1-9]`. */
  function ParseMonth(m: string): (r: Option<int>)
    ensures r.Some? ==> 1 <= r.value <= 12
  {
    if |m| == 1 && '1' <= m[0] <= '9' then Some(DigitValue(m[0]))
    else if |m| == 2 && ((m[0] == '0' && '1' <= m[1] <= '9') || (m[0] == '1' && '0' <= m[1] <= '2'))
    then Some(10 * DigitValue(m[0]) + DigitValue(m[1]))
    else None
  }

  /** `%d`: `3[01]|[12]\d|0[1-9]|[1-9]| [1-9]`. */
  function ParseDay(d: string): (r: Option<int>)
    ensures r.Some? ==> 1 <= r.value <= 31
  {
    if |d| == 1 && '1' <= d[0] <= '9' then Some(DigitValue(d[0]))
    else if |d| == 2 && d[0] == ' ' && '1' <= d[1] <= '9' then Some(DigitValue(d[1]))
    else if |d| == 2 && ((d[0] == '3' && '0' <= d[1] <= '1') || ('1' <= d[0] <= '2' && IsDigit(d[1]))
                         || (d[0] == '0' && '1' <= d[1] <= '9'))
    then Some(10 * DigitValue(d[0]) + DigitValue(d[1]))
    else None
  }

  /** `%Y`: exactly four digits. */
  function ParseYear(y: string): (r: Option<int>)
    ensures r.Some? ==> 0 <= r.value <= 9999
  {
    if |y| == 4 && IsDigit(y[0]) && IsDigit(y[1]) && IsDigit(y[2]) && IsDigit(y[3]) then
      Some(((DigitValue(y[0]) * 10 + DigitValue(y[1])) * 10 + DigitValue(y[2])) * 10 + DigitValue(y[3]))
    else None
  }

  /** `datetime.strptime(s, '%m/%d/%Y')`: None where Python raises ValueError,
      either because the text does not match the whole format or because the
      date does not exist. */
  function ParseDate(s: string): (r: Option<Date>)
    ensures r.Some? ==> ValidDate(r.value)
  {
    match SplitAt(s, '/')
    case None => None
    case Some((m, rest)) =>
      match SplitAt(rest, '/')
      case None => None
      case Some((d, y)) =>
        match (ParseMonth(m), ParseDay(d), ParseYear(y))
        case (Some(month), Some(day), Some(year)) =>
          if ValidDate(Date(year, month, day)) then Some(Date(year, month, day)) else None
        case _ => None
  }

  function TwoDigits(n: nat): string
    requires n < 100
  {
    [DigitChar(n / 10), DigitChar(n % 10)]
  }

  function FourDigits(n: nat): string
    requires n < 10000
  {
    [DigitChar(n / 1000), DigitChar(n / 100 % 10), DigitChar(n / 10 % 10), DigitChar(n % 10)]
  }

  /** `d.strftime('%m/%d/%Y')`. */
  function FormatDate(d: Date): string
    requires ValidDate(d)
  {
    TwoDigits(d.month) + "/" + TwoDigits(d.day) + "/" + FourDigits(d.year)
  }

  lemma SplitAtFirst(a: string, sep: char, b: string)
    requires sep !in a
    ensures SplitAt(a + [sep] + b, sep) == Some((a, b))
  {
    if a != [] {
      assert (a + [sep] + b)[1..] == a[1..] + [sep] + b;
      SplitAtFirst(a[1..], sep, b);
      assert a[0] != sep && [a[0]] + a[1..] == a;
    }
  }

  lemma FourDigitsValue(n: nat)
    requires n < 10000
    ensures ParseYear(FourDigits(n)) == Some(n)
  {
    var a, b, c := n / 1000, n / 100 % 10, n / 10 % 10;
    assert n / 100 == a * 10 + b;
    assert n / 10 == (a * 10 + b) * 10 + c;
  }

  /** `strptime(d.strftime('%m/%d/%Y'), '%m/%d/%Y') == d` for every date `datetime` accepts. */
  lemma {:induction false} ParseFormatDate(d: Date)
    requires ValidDate(d)
    ensures ParseDate(FormatDate(d)) == Some(d)
  {
    var m, dd, y := TwoDigits(d.month), TwoDigits(d.day), FourDigits(d.year);
    assert FormatDate(d) == m + ['/'] + (dd + ['/'] + y);
    SplitAtFirst(m, '/', dd + ['/'] + y);
    SplitAtFirst(dd, '/', y);
    assert ParseMonth(m) == Some(d.month);
    assert ParseDay(dd) == Some(d.day);
    FourDigitsValue(d.year);
  }

  /** The hire date of the handler's test data: 07/16/2018 is 16 July 2018. */
  lemma HireDateExample()
    ensures ParseDate("07/16/2018") == Some(Date(2018, 7, 16))
  {
    ParseFormatDate(Date(2018, 7, 16));
    assert FormatDate(Date(2018, 7, 16)) == "07/16/2018";
  }
}
