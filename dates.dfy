/**
 * The two date formats the dashboards try in turn with datetime.strptime,
 * "%B %Y" and then "%B %d, %Y", reduced to the year they yield.
 */
module Dates {
  import opened Wrappers
  import opened PyText

  /** Month names as %B matches them in the C locale, lower-cased. */
  const MonthNames: seq<string> := ["january", "february", "march", "april", "may", "june",
    "july", "august", "september", "october", "november", "december"]

  function LowerChar(c: char): char {
    if 'A' <= c <= 'Z' then (c as int + 32) as char else c
  }

  function LowerAscii(s: string): (r: string)
    ensures |r| == |s|
  {
    if s == [] then [] else [LowerChar(s[0])] + LowerAscii(s[1..])
  }

  /** The month number %B reads from name, compared without regard to ASCII case. */
  function MonthNumber(name: string): (m: Option<int>)
    ensures m.Some? ==> 1 <= m.value <= 12
  {
    MonthFrom(LowerAscii(name), 0)
  }

  function MonthFrom(lower: string, k: nat): (m: Option<int>)
    requires k <= 12
    ensures m.Some? ==> k + 1 <= m.value <= 12
    decreases 12 - k
  {
    if k == 12 then None
    else if lower == MonthNames[k] then Some(k + 1)
    else MonthFrom(lower, k + 1)
  }

  /** Index of the first whitespace character of s, or |s| when there is none. */
  function FirstSpace(s: string): (i: nat)
    ensures i <= |s| && NoSpace(s[..i])
    ensures i < |s| ==> IsSpace(s[i])
  {
    if s == [] || IsSpace(s[0]) then 0 else 1 + FirstSpace(s[1..])
  }

  /** Index of the first c in s, or |s| when there is none. */
  function IndexOf(s: string, c: char): (i: nat)
    ensures i <= |s| && c !in s[..i]
    ensures i < |s| ==> s[i] == c
  {
    if s == [] || s[0] == c then 0 else 1 + IndexOf(s[1..], c)
  }

  predicate IsLeapYear(y: int) {
    y % 4 == 0 && (y % 100 != 0 || y % 400 == 0)
  }

  function DaysInMonth(m: int, y: int): int
    requires 1 <= m <= 12
  {
    if m == 2 then (if IsLeapYear(y) then 29 else 28)
    else if m == 4 || m == 6 || m == 9 || m == 11 then 30
    else 31
  }

  /** A %Y field: exactly four digits, naming a year datetime can hold. */
  function FourDigitYear(text: string): Option<int> {
    if |text| == 4 && AllDigits(text) && DigitsValue(text) >= 1 then Some(DigitsValue(text)) else None
  }

  /** The year of datetime.strptime(s, "%B %Y"), or None where it raises ValueError. */
  function YearOfMonthYear(s: string): Option<int> {
    var i := FirstSpace(s);
    if i == |s| || MonthNumber(s[..i]).None? then None
    else FourDigitYear(TrimLeft(s[i..]))
  }

  /** What "%d, %Y" yields on rest for month m: a day of that month, a comma, whitespace, a year. */
  function DayCommaYear(rest: string, m: int): Option<int>
    requires 1 <= m <= 12
  {
    var j := IndexOf(rest, ',');
    if j == |rest| then None
    else
      var day, tail := rest[..j], rest[j + 1..];
      if !(1 <= |day| <= 2 && AllDigits(day)) || tail == [] || !IsSpace(tail[0]) then None
      else match FourDigitYear(TrimLeft(tail))
        case None => None
        case Some(y) => if 1 <= DigitsValue(day) <= DaysInMonth(m, y) then Some(y) else None
  }

  /** The year of datetime.strptime(s, "%B %d, %Y"), or None where it raises ValueError. */
  function YearOfMonthDayYear(s: string): Option<int> {
    var i := FirstSpace(s);
    if i == |s| then None
    else match MonthNumber(s[..i])
      case None => None
      case Some(m) => DayCommaYear(TrimLeft(s[i..]), m)
  }

  /** The year a dashboard reads from a non-empty project date: "%B %Y" first, then "%B %d, %Y". */
  function ParseYear(s: string): Option<int> {
    match YearOfMonthYear(s)
    case Some(y) => Some(y)
    case None => YearOfMonthDayYear(s)
  }

  /** Every year strptime yields is one datetime can hold. */
  lemma ParseYearInRange(s: string)
    requires ParseYear(s).Some?
    ensures 1 <= ParseYear(s).value <= 9999
  {
    var i := FirstSpace(s);
    var rest := TrimLeft(s[i..]);
    if YearOfMonthYear(s).Some? {
      DigitsValueBound(rest);
    } else {
      var j := IndexOf(rest, ',');
      DigitsValueBound(TrimLeft(rest[j + 1..]));
    }
  }

  lemma FourDigitYearRange(text: string)
    requires FourDigitYear(text).Some?
    ensures 1 <= FourDigitYear(text).value <= 9999
  {
    DigitsValueBound(text);
  }

  lemma {:induction false} FirstSpaceAfterWord(word: string, rest: string)
    requires NoSpace(word) && rest != [] && IsSpace(rest[0])
    ensures FirstSpace(word + rest) == |word|
  {
    if word != [] {
      assert (word + rest)[1..] == word[1..] + rest;
      FirstSpaceAfterWord(word[1..], rest);
    } else {
      assert word + rest == rest;
    }
  }

  lemma TrimLeftOneSpace(s: string)
    requires s != [] && !IsSpace(s[0])
    ensures TrimLeft([' '] + s) == s
  {
    assert ([' '] + s)[1..] == s;
  }

  lemma YearOfMonthYearWhen(s: string, i: nat, rest: string)
    requires i == FirstSpace(s) && i < |s| && MonthNumber(s[..i]).Some? && rest == TrimLeft(s[i..])
    ensures YearOfMonthYear(s) == FourDigitYear(rest)
  {
  }

  lemma YearOfMonthDayYearWhen(s: string, i: nat, m: int, rest: string)
    requires i == FirstSpace(s) && i < |s| && MonthNumber(s[..i]) == Some(m) && rest == TrimLeft(s[i..])
    ensures 1 <= m <= 12 && YearOfMonthDayYear(s) == DayCommaYear(rest, m)
  {
  }

  lemma DayCommaYearWhen(rest: string, m: int, day: string, tail: string, y: int)
    requires 1 <= m <= 12 && IndexOf(rest, ',') == |day| < |rest|
    requires day == rest[..|day|] && 1 <= |day| <= 2 && AllDigits(day)
    requires tail == rest[|day| + 1..] && tail != [] && IsSpace(tail[0])
    requires FourDigitYear(TrimLeft(tail)) == Some(y) && 1 <= DigitsValue(day) <= DaysInMonth(m, y)
    ensures DayCommaYear(rest, m) == Some(y)
  {
  }

  /** Where the first whitespace of word + rest falls, and what follows it. */
  lemma WordThenSpaces(word: string, rest: string)
    requires NoSpace(word) && rest != [] && IsSpace(rest[0])
    ensures FirstSpace(word + rest) == |word| < |word + rest|
    ensures (word + rest)[..|word|] == word && (word + rest)[|word|..] == rest
  {
    FirstSpaceAfterWord(word, rest);
  }

  /** A date written as "<month name> <year>" reads back its year. */
  lemma ParseMonthYearText(t: string, y: nat)
    requires NoSpace(t) && MonthNumber(t).Some? && 1000 <= y <= 9999
    ensures ParseYear(t + " " + ShowNat(y)) == Some(y)
  {
    var digits := ShowNat(y);
    ShowYearDigits(y);
    var s := t + " " + digits;
    assert s == t + (" " + digits);
    WordThenSpaces(t, " " + digits);
    TrimLeftOneSpace(digits);
    YearOfMonthYearWhen(s, |t|, digits);
    assert FourDigitYear(digits) == Some(y);
  }

  /** The text after the month in "<month> <day>, <year>" is not a bare year, so "%B %Y" rejects the date. */
  lemma DayCommaYearNotYear(dd: string, yy: string)
    requires 1 <= |dd| <= 2
    ensures FourDigitYear(dd + ", " + yy) == None
  {
    var rest := dd + ", " + yy;
    assert rest[|dd|] == ',' && !IsDigit(',');
  }

  /** The comma after a one- or two-digit day is the first comma of the text. */
  lemma DayCommaIndex(dd: string, yy: string)
    requires 1 <= |dd| <= 2 && AllDigits(dd)
    ensures IndexOf(dd + ", " + yy, ',') == |dd|
    ensures (dd + ", " + yy)[..|dd|] == dd && (dd + ", " + yy)[|dd| + 1..] == [' '] + yy
  {
    var rest := dd + ", " + yy;
    assert rest[|dd|] == ',' && ',' !in dd;
  }

  /** The text after the month in "<month> <day>, <year>" fails "%Y" and passes "%d, %Y". */
  lemma DayCommaYearText(dd: string, yy: string, m: int)
    requires 1 <= m <= 12 && 1 <= |dd| <= 2 && AllDigits(dd)
    requires |yy| == 4 && AllDigits(yy) && DigitsValue(yy) >= 1 && !IsSpace(yy[0])
    requires 1 <= DigitsValue(dd) <= DaysInMonth(m, DigitsValue(yy))
    ensures FourDigitYear(dd + ", " + yy) == None
    ensures DayCommaYear(dd + ", " + yy, m) == Some(DigitsValue(yy))
  {
    DayCommaYearNotYear(dd, yy);
    DayCommaIndex(dd, yy);
    TrimLeftOneSpace(yy);
    assert FourDigitYear(TrimLeft([' '] + yy)) == Some(DigitsValue(yy));
    DayCommaYearWhen(dd + ", " + yy, m, dd, [' '] + yy, DigitsValue(yy));
  }

  lemma ShowYearDigits(y: nat)
    requires 1000 <= y <= 9999
    ensures |ShowNat(y)| == 4 && DigitsValue(ShowNat(y)) == y && !IsSpace(ShowNat(y)[0])
  {
    assert Pow10(4) == 10000 && Pow10(3) == 1000;
    ShowNatLength(y, 4);
    DigitsValueOfShowNat(y);
  }

  lemma ShowDayDigits(d: nat)
    requires 1 <= d <= 31
    ensures 1 <= |ShowNat(d)| <= 2 && DigitsValue(ShowNat(d)) == d
  {
    assert Pow10(2) == 100 && Pow10(1) == 10;
    DigitsValueOfShowNat(d);
    if d < 10 { ShowNatLength(d, 1); } else { ShowNatLength(d, 2); }
  }

  lemma DateTextShape(t: string, dd: string, yy: string)
    ensures t + " " + dd + ", " + yy == t + (" " + (dd + ", " + yy))
  {
  }

  /** A date written as "<month name> <day>, <year>" reads back its year when the day exists. */
  lemma ParseMonthDayYearText(t: string, d: nat, y: nat)
    requires NoSpace(t) && MonthNumber(t).Some? && 1000 <= y <= 9999
    requires 1 <= d <= DaysInMonth(MonthNumber(t).value, y)
    ensures ParseYear(t + " " + ShowNat(d) + ", " + ShowNat(y)) == Some(y)
  {
    var dd, yy := ShowNat(d), ShowNat(y);
    var rest := dd + ", " + yy;
    var s := t + (" " + rest);
    DateTextShape(t, dd, yy);
    ShowYearDigits(y);
    ShowDayDigits(d);
    DayCommaYearText(dd, yy, MonthNumber(t).value);
    WordThenSpaces(t, " " + rest);
    TrimLeftOneSpace(rest);
    YearOfMonthYearWhen(s, |t|, rest);
    YearOfMonthDayYearWhen(s, |t|, MonthNumber(t).value, rest);
  }

  lemma SampleTexts(y1: string, d2: string, y2: string)
    requires y1 == "2024" && d2 == "14" && y2 == "2022"
    ensures "March" + " " + y1 == "March 2024"
    ensures "March" + " " + d2 + ", " + y2 == "March 14, 2022"
  {
  }

  lemma SampleDigits()
    ensures ShowNat(2024) == "2024" && ShowNat(14) == "14" && ShowNat(2022) == "2022"
  {
  }

  lemma MarchIsMonth()
    ensures NoSpace("March") && MonthNumber("March") == Some(3)
  {
  }

  /** The two sample dates of the dashboards' own comments. */
  lemma SampleDates()
    ensures ParseYear("March 2024") == Some(2024)
    ensures ParseYear("March 14, 2022") == Some(2022)
  {
    SampleDigits();
    MarchIsMonth();
    ParseMonthYearText("March", 2024);
    ParseMonthDayYearText("March", 14, 2022);
    SampleTexts(ShowNat(2024), ShowNat(14), ShowNat(2022));
  }
}
