/**
 * The Python string primitives the application leans on: str.isspace,
 * str.strip, str.split(","), str.join, int() on a string and str() on an int.
 */
module PyText {
  import opened Wrappers

  /** The characters for which Python's str.isspace() holds. */
  predicate IsSpace(c: char) {
    || ('\t' <= c <= '\r')
    || ('\U{1c}' <= c <= ' ')
    || c == '\U{85}' || c == '\U{a0}' || c == '\U{1680}'
    || ('\U{2000}' <= c <= '\U{200a}')
    || c == '\U{2028}' || c == '\U{2029}' || c == '\U{202f}' || c == '\U{205f}' || c == '\U{3000}'
  }

  predicate NoSpace(s: string) {
    forall i :: 0 <= i < |s| ==> !IsSpace(s[i])
  }

  /** s with its longest all-whitespace prefix removed. */
  function TrimLeft(s: string): (r: string)
    ensures |r| <= |s|
  {
    if s != [] && IsSpace(s[0]) then TrimLeft(s[1..]) else s
  }

  /** s with its longest all-whitespace suffix removed. */
  function TrimRight(s: string): (r: string)
    ensures |r| <= |s|
  {
    if s != [] && IsSpace(s[|s| - 1]) then TrimRight(s[..|s| - 1]) else s
  }
  /** TrimLeft drops exactly the leading whitespace: a suffix remains, all of the dropped part is whitespace, and what remains starts with a non-space. */
  lemma {:induction false} TrimLeftSpec(s: string)
    ensures TrimLeft(s) == s[|s| - |TrimLeft(s)|..]
    ensures forall i :: 0 <= i < |s| - |TrimLeft(s)| ==> IsSpace(s[i])
    ensures TrimLeft(s) == [] || !IsSpace(TrimLeft(s)[0])
  {
    if s != [] && IsSpace(s[0]) {
      TrimLeftSpec(s[1..]);
    }
  }

  /** TrimRight drops exactly the trailing whitespace. */
  lemma {:induction false} TrimRightSpec(s: string)
    ensures TrimRight(s) == s[..|TrimRight(s)|]
    ensures forall i :: |TrimRight(s)| <= i < |s| ==> IsSpace(s[i])
    ensures TrimRight(s) == [] || !IsSpace(TrimRight(s)[|TrimRight(s)| - 1])
  {
    if s != [] && IsSpace(s[|s| - 1]) {
      TrimRightSpec(s[..|s| - 1]);
    }
  }


  /** Python's s.strip() with no argument. */
  function Strip(s: string): string {
    TrimRight(TrimLeft(s))
  }

  /** Python's `not s.strip()`. */
  predicate IsBlank(s: string) {
    Strip(s) == []
  }

  lemma BlankIffAllSpace(s: string)
    ensures IsBlank(s) <==> forall i :: 0 <= i < |s| ==> IsSpace(s[i])
  {
    var l := TrimLeft(s);
    TrimLeftSpec(s);
    TrimRightSpec(l);
    if l != [] {
      assert !IsSpace(l[0]);
      assert TrimRight(l) != [];
      assert !IsSpace(s[|s| - |l|]);
    }
  }

  lemma StripNoSpace(s: string)
    requires s == [] || (!IsSpace(s[0]) && !IsSpace(s[|s| - 1]))
    ensures Strip(s) == s
  {
    assert TrimLeft(s) == s;
    TrimRightSpec(s);
  }

  lemma StripIdempotent(s: string)
    ensures Strip(Strip(s)) == Strip(s)
  {
    var t := Strip(s);
    if t != [] {
      var l := TrimLeft(s);
      TrimLeftSpec(s);
      TrimRightSpec(l);
      assert t == l[..|t|];
      assert t[0] == l[0];
      StripNoSpace(t);
    }
  }

  /** Python's s.split(sep) for a one-character separator. */
  function Split(s: string, sep: char): (parts: seq<string>)
    ensures |parts| >= 1
    ensures forall i :: 0 <= i < |parts| ==> sep !in parts[i]
  {
    if s == [] then [[]]
    else
      var rest := Split(s[1..], sep);
      if s[0] == sep then [[]] + rest else [[s[0]] + rest[0]] + rest[1..]
  }

  /** Every character of a piece comes from the split string. */
  lemma {:induction false} SplitKeepsChars(s: string, sep: char, i: nat, c: char)
    requires i < |Split(s, sep)| && c in Split(s, sep)[i]
    ensures c in s
  {
    if s != [] {
      var rest := Split(s[1..], sep);
      if s[0] == sep {
        if i > 0 {
          SplitKeepsChars(s[1..], sep, i - 1, c);
        }
      } else if i == 0 {
        if c != s[0] {
          SplitKeepsChars(s[1..], sep, 0, c);
        }
      } else {
        SplitKeepsChars(s[1..], sep, i, c);
      }
    }
  }

  /** Python's sep.join(parts). */
  function Join(parts: seq<string>, sep: string): string {
    if |parts| == 0 then []
    else if |parts| == 1 then parts[0]
    else parts[0] + sep + Join(parts[1..], sep)
  }

  lemma {:induction false} SplitThenJoin(s: string, sep: char)
    ensures Join(Split(s, sep), [sep]) == s
  {
    if s != [] {
      var rest := Split(s[1..], sep);
      SplitThenJoin(s[1..], sep);
      if s[0] == sep {
        assert Split(s, sep)[1..] == rest;
      } else if |rest| > 1 {
        var parts := Split(s, sep);
        assert parts[1..] == rest[1..];
        assert Join(rest, [sep]) == rest[0] + [sep] + Join(rest[1..], [sep]);
        assert s == [s[0]] + s[1..];
      } else {
        assert s == [s[0]] + s[1..];
      }
    }
  }

  lemma {:induction false} SplitAfterSepFreePrefix(p: string, t: string, sep: char)
    requires sep !in p
    ensures Split(p + t, sep) == [p + Split(t, sep)[0]] + Split(t, sep)[1..]
  {
    if p != [] {
      var q := p[1..];
      var tail := Split(t, sep);
      SplitAfterSepFreePrefix(q, t, sep);
      assert (p + t)[1..] == q + t;
      assert (p + t)[0] == p[0] && p[0] != sep;
      var rest := Split(q + t, sep);
      assert rest[0] == q + tail[0] && rest[1..] == tail[1..];
      assert Split(p + t, sep) == [[p[0]] + rest[0]] + rest[1..];
      assert [p[0]] + (q + tail[0]) == p + tail[0];
    } else {
      var tail := Split(t, sep);
      assert p + t == t;
      assert p + tail[0] == tail[0];
      assert [tail[0]] + tail[1..] == tail;
    }
  }

  lemma {:induction false} JoinThenSplit(parts: seq<string>, sep: char)
    requires |parts| >= 1
    requires forall i :: 0 <= i < |parts| ==> sep !in parts[i]
    ensures Split(Join(parts, [sep]), sep) == parts
  {
    if |parts| == 1 {
      SplitAfterSepFreePrefix(parts[0], [], sep);
      assert Split([], sep) == [[]];
      assert parts[0] + [] == parts[0];
    } else {
      var tail := Join(parts[1..], [sep]);
      JoinThenSplit(parts[1..], sep);
      assert Join(parts, [sep]) == parts[0] + ([sep] + tail);
      SplitAfterSepFreePrefix(parts[0], [sep] + tail, sep);
      assert ([sep] + tail)[1..] == tail && ([sep] + tail)[0] == sep;
      assert Split([sep] + tail, sep) == [[]] + parts[1..];
      assert parts[0] + [] == parts[0];
      assert parts == [parts[0]] + parts[1..];
    }
  }

  predicate IsDigit(c: char) {
    '0' <= c <= '9'
  }

  predicate AllDigits(s: string) {
    forall i :: 0 <= i < |s| ==> IsDigit(s[i])
  }

  function DigitValue(c: char): nat
    requires IsDigit(c)
  {
    (c as int) - ('0' as int)
  }

  function DigitChar(d: nat): (c: char)
    requires d < 10
    ensures IsDigit(c) && DigitValue(c) == d
  {
    ('0' as int + d) as char
  }

  /** The value of a string of decimal digits. */
  function DigitsValue(s: string): nat
    requires AllDigits(s)
  {
    if s == [] then 0 else 10 * DigitsValue(s[..|s| - 1]) + DigitValue(s[|s| - 1])
  }

  lemma {:induction false} DigitsValueBound(s: string)
    requires AllDigits(s)
    ensures DigitsValue(s) < Pow10(|s|)
  {
    if s != [] {
      DigitsValueBound(s[..|s| - 1]);
    }
  }

  /**
   * The ASCII information separators U+001C..U+001F: whitespace to str.isspace and
   * str.strip, but not to int(), which skips only the ASCII blanks and the non-ASCII
   * whitespace it first maps to a space.
   */
  predicate IsSeparatorControl(c: char) {
    '\U{1c}' <= c <= '\U{1f}'
  }

  predicate HasSeparatorControl(s: string) {
    exists i :: 0 <= i < |s| && IsSeparatorControl(s[i])
  }

  /**
   * Python's int(s) for a str: surrounding whitespace, an optional sign and at least
   * one digit. A separator control anywhere is neither skipped nor a digit, so int()
   * rejects the text.
   */
  function ParseInt(s: string): Option<int> {
    if HasSeparatorControl(s) then None
    else
      var t := Strip(s);
      if t == [] then None
      else
        var digits := if t[0] == '-' || t[0] == '+' then t[1..] else t;
        if digits == [] || !AllDigits(digits) then None
        else if t[0] == '-' then Some(-(DigitsValue(digits) as int))
        else Some(DigitsValue(digits))
  }

  /** Python's str(n) for n >= 0. */
  function ShowNat(n: nat): (s: string)
    ensures s != [] && AllDigits(s)
  {
    if n < 10 then [DigitChar(n)] else ShowNat(n / 10) + [DigitChar(n % 10)]
  }

  /** Python's str(n) for an int. */
  function ShowInt(n: int): (s: string)
    ensures s != []
  {
    if n < 0 then "-" + ShowNat(-n) else ShowNat(n)
  }

  lemma {:induction false} DigitsValueOfShowNat(n: nat)
    ensures DigitsValue(ShowNat(n)) == n
  {
    if n >= 10 {
      DigitsValueOfShowNat(n / 10);
      var s := ShowNat(n);
      assert s[..|s| - 1] == ShowNat(n / 10);
    }
  }

  lemma {:induction false} ShowNatLength(n: nat, k: nat)
    requires k >= 1 && n < Pow10(k) && (k == 1 || n >= Pow10(k - 1))
    ensures |ShowNat(n)| == k
  {
    if k > 1 {
      ShowNatLength(n / 10, k - 1);
    }
  }

  function Pow10(k: nat): (p: nat)
    ensures p >= 1
  {
    if k == 0 then 1 else 10 * Pow10(k - 1)
  }

  /** int() reads back what str() writes. */
  lemma ParseShowInt(n: int)
    ensures ParseInt(ShowInt(n)) == Some(n)
  {
    var s := ShowInt(n);
    ShowIntShape(n);
    StripNoSpace(s);
    DigitsValueOfShowNat(if n < 0 then -n else n);
  }

  /** str(n) is an optional minus sign and digits, so it holds no whitespace and no separator control. */
  lemma ShowIntShape(n: int)
    ensures n < 0 ==> ShowInt(n)[0] == '-' && ShowInt(n)[1..] == ShowNat(-n)
    ensures n >= 0 ==> ShowInt(n) == ShowNat(n)
    ensures !HasSeparatorControl(ShowInt(n))
    ensures !IsSpace(ShowInt(n)[0]) && !IsSpace(ShowInt(n)[|ShowInt(n)| - 1])
  {
    var s := ShowInt(n);
    var digits := ShowNat(if n < 0 then -n else n);
    if n < 0 {
      assert s == "-" + digits && s[1..] == digits;
    }
    assert forall i :: 0 <= i < |s| ==> s[i] == '-' || IsDigit(s[i]);
  }

  lemma StripKeepsChars(s: string)
    ensures forall c :: c in Strip(s) ==> c in s
  {
    var l := TrimLeft(s);
    TrimLeftSpec(s);
    TrimRightSpec(l);
  }

  /**
   * int() strips its argument itself, so stripping first changes nothing, except for a
   * text padded with separator controls: int() rejects it, yet stripping removes them.
   */
  lemma ParseIntOfStrip(s: string)
    ensures ParseInt(s).Some? ==> ParseInt(Strip(s)) == ParseInt(s)
    ensures !HasSeparatorControl(s) ==> ParseInt(Strip(s)) == ParseInt(s)
  {
    StripIdempotent(s);
    StripKeepsChars(s);
    if !HasSeparatorControl(s) {
      var t := Strip(s);
      forall i | 0 <= i < |t|
        ensures !IsSeparatorControl(t[i])
      {
        assert t[i] in s;
        var j :| 0 <= j < |s| && s[j] == t[i];
      }
    }
  }

  /** A blank piece is never an integer. */
  lemma ParseIntOfBlank(s: string)
    requires IsBlank(s)
    ensures ParseInt(s) == None
  {
  }

  /** A goal tag padded with an information separator: int() rejects it, but not once it is stripped. */
  lemma SeparatorPaddedNumber()
    ensures ParseInt("\U{1c}5") == None
    ensures Strip("\U{1c}5") == "5" && ParseInt("5") == Some(5)
  {
    var s := "\U{1c}5";
    assert IsSeparatorControl(s[0]);
    assert TrimLeft(s) == TrimLeft(s[1..]) && s[1..] == "5";
    assert ShowInt(5) == "5";
    ParseShowInt(5);
  }
}
