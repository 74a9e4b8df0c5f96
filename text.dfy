/**
 * The few Python string operations the scripts rely on: `str.strip()`,
 * `str.lower()`, `str.split(",")` and `int(str)`.
 */
module Text {
  import opened Results

  /** `str.isspace()` for one character: the characters Python strips by default. */
  predicate IsSpace(c: char) {
    || ('\t' <= c <= '\r')
    || ('\U{1c}' <= c <= ' ')
    || c == '\U{85}' || c == '\U{a0}' || c == '\U{1680}'
    || ('\U{2000}' <= c <= '\U{200a}')
    || c == '\U{2028}' || c == '\U{2029}' || c == '\U{202f}' || c == '\U{205f}' || c == '\U{3000}'
  }

  /** `s.lstrip()`: drop the leading whitespace. */
  function StripLeft(s: string): string {
    if |s| > 0 && IsSpace(s[0]) then StripLeft(s[1..]) else s
  }

  /** `s.rstrip()`: drop the trailing whitespace. */
  function StripRight(s: string): string {
    if |s| > 0 && IsSpace(s[|s| - 1]) then StripRight(s[..|s| - 1]) else s
  }

  /** `s.strip()`: drop the whitespace at both ends. */
  function Strip(s: string): string {
    StripRight(StripLeft(s))
  }

  /** `lstrip` keeps a suffix, removes only whitespace, and stops at the first other character. */
  lemma {:induction false} StripLeftShape(s: string)
    ensures |StripLeft(s)| <= |s| && StripLeft(s) == s[|s| - |StripLeft(s)|..]
    ensures forall k :: 0 <= k < |s| - |StripLeft(s)| ==> IsSpace(s[k])
    ensures StripLeft(s) == [] || !IsSpace(StripLeft(s)[0])
  {
    if |s| > 0 && IsSpace(s[0]) {
      StripLeftShape(s[1..]);
    }
  }

  /** `rstrip` keeps a prefix, removes only whitespace, and stops at the last other character. */
  lemma {:induction false} StripRightShape(s: string)
    ensures |StripRight(s)| <= |s| && StripRight(s) == s[..|StripRight(s)|]
    ensures forall k :: |StripRight(s)| <= k < |s| ==> IsSpace(s[k])
    ensures StripRight(s) == [] || !IsSpace(StripRight(s)[|StripRight(s)| - 1])
  {
    if |s| > 0 && IsSpace(s[|s| - 1]) {
      StripRightShape(s[..|s| - 1]);
    }
  }

  /**
   * `strip` keeps a slice `s[i..j]`: everything before `i` and from `j` on is
   * whitespace, and the result neither starts nor ends with whitespace.
   */
  lemma StripShape(s: string)
    ensures |StripLeft(s)| <= |s|
    ensures var i := |s| - |StripLeft(s)|;
            && i + |Strip(s)| <= |s|
            && Strip(s) == s[i..i + |Strip(s)|]
            && (forall k :: 0 <= k < i ==> IsSpace(s[k]))
            && (forall k :: i + |Strip(s)| <= k < |s| ==> IsSpace(s[k]))
    ensures Strip(s) == [] || (!IsSpace(Strip(s)[0]) && !IsSpace(Strip(s)[|Strip(s)| - 1]))
  {
    var t := StripLeft(s);
    StripLeftShape(s);
    StripRightShape(t);
    var r := StripRight(t);
    if r != [] {
      assert r[0] == t[0];
    }
  }

  /** A string with no whitespace at either end is its own strip. */
  lemma StripNoEdgeSpace(s: string)
    requires s == [] || (!IsSpace(s[0]) && !IsSpace(s[|s| - 1]))
    ensures Strip(s) == s
  {
  }

  /** Stripping twice is stripping once. */
  lemma StripIdempotent(s: string)
    ensures Strip(Strip(s)) == Strip(s)
  {
    StripShape(s);
    StripNoEdgeSpace(Strip(s));
  }

  /** `str.lower()` on one character (ASCII letters only). */
  function LowerChar(c: char): char {
    if 'A' <= c <= 'Z' then (c as int + 32) as char else c
  }

  /**
   * `s.lower()`: every ASCII capital replaced by its small letter. The ensures
   * restate the comprehension element by element, so that callers get it
   * without unfolding; what lowering promises is `LowerIdempotent`.
   */
  function Lower(s: string): (r: string)
    ensures |r| == |s|
    ensures forall i :: 0 <= i < |s| ==> r[i] == LowerChar(s[i])
  {
    seq(|s|, i requires 0 <= i < |s| => LowerChar(s[i]))
  }

  /** Lower-casing leaves no capital behind, so it is idempotent. */
  lemma LowerIdempotent(s: string)
    ensures forall i :: 0 <= i < |Lower(s)| ==> !('A' <= Lower(s)[i] <= 'Z')
    ensures Lower(Lower(s)) == Lower(s)
  {
  }

  /** The number of occurrences of `c` in `s`. */
  function Count(s: string, c: char): nat {
    if s == [] then 0 else (if s[0] == c then 1 else 0) + Count(s[1..], c)
  }

  /**
   * `s.split(sep)` for a one-character separator: the maximal runs between
   * separators, empty ones included.
   */
  function Split(s: string, sep: char): seq<string> {
    if s == [] then [[]]
    else
      var rest := Split(s[1..], sep);
      if s[0] == sep then [[]] + rest else [[s[0]] + rest[0]] + rest[1..]
  }

  /** There is always at least one field, one more than there are separators, and no field contains the separator. */
  lemma {:induction false} SplitShape(s: string, sep: char)
    ensures |Split(s, sep)| == Count(s, sep) + 1
    ensures forall i :: 0 <= i < |Split(s, sep)| ==> sep !in Split(s, sep)[i]
  {
    if s != [] {
      SplitShape(s[1..], sep);
      var rest := Split(s[1..], sep);
      if s[0] != sep {
        assert sep !in rest[0];
        assert sep !in [s[0]] + rest[0];
        forall i | 1 <= i < |Split(s, sep)| ensures sep !in Split(s, sep)[i] {
          assert Split(s, sep)[i] == rest[i];
        }
      } else {
        forall i | 1 <= i < |Split(s, sep)| ensures sep !in Split(s, sep)[i] {
          assert Split(s, sep)[i] == rest[i - 1];
        }
      }
    }
  }

  /** `sep.join(fields)`. */
  function Join(fields: seq<string>, sep: char): string
    requires |fields| >= 1
  {
    if |fields| == 1 then fields[0] else fields[0] + [sep] + Join(fields[1..], sep)
  }

  /** Joining the fields again with the separator gives back the line. */
  lemma {:induction false} JoinSplit(s: string, sep: char)
    ensures Join(Split(s, sep), sep) == s
  {
    if s != [] {
      var rest := Split(s[1..], sep);
      JoinSplit(s[1..], sep);
      if s[0] != sep {
        if |rest| == 1 {
          assert Split(s, sep) == [[s[0]] + rest[0]];
        } else {
          var fs := Split(s, sep);
          assert fs[1..] == rest[1..];
          assert Join(fs, sep) == [s[0]] + rest[0] + [sep] + Join(rest[1..], sep);
        }
      } else {
        assert Split(s, sep)[1..] == rest;
      }
    }
  }

  /** A separator-free prefix joins the first field. */
  lemma {:induction false} SplitSepFreePrefix(x: string, t: string, sep: char)
    requires sep !in x
    ensures Split(x + t, sep) == [x + Split(t, sep)[0]] + Split(t, sep)[1..]
  {
    if x != [] {
      var st := Split(t, sep);
      assert x[0] in x;
      assert (x + t)[0] == x[0] && (x + t)[1..] == x[1..] + t;
      SplitSepFreePrefix(x[1..], t, sep);
      var rest := Split(x[1..] + t, sep);
      assert rest[0] == x[1..] + st[0];
      assert rest[1..] == st[1..];
      assert [x[0]] + (x[1..] + st[0]) == x + st[0];
      assert Split(x + t, sep) == [[x[0]] + rest[0]] + rest[1..];
    } else {
      var st := Split(t, sep);
      assert x + t == t && x + st[0] == st[0];
      assert [st[0]] + st[1..] == st;
    }
  }

  /** A line without the separator is a single field. */
  lemma SplitNoSep(x: string, sep: char)
    requires sep !in x
    ensures Split(x, sep) == [x]
  {
    SplitSepFreePrefix(x, [], sep);
    assert x + [] == x;
  }

  /** A separator-free last field comes off the line whole, after the fields of what precedes it. */
  lemma {:induction false} SplitSnoc(t: string, x: string, sep: char)
    requires sep !in x
    ensures Split(t + [sep] + x, sep) == Split(t, sep) + [x]
  {
    if t == [] {
      assert t + [sep] + x == [sep] + x;
      assert ([sep] + x)[1..] == x;
      SplitNoSep(x, sep);
    } else {
      var s := t + [sep] + x;
      assert s[0] == t[0] && s[1..] == t[1..] + [sep] + x;
      SplitSnoc(t[1..], x, sep);
      var rest := Split(t[1..], sep);
      if t[0] != sep {
        assert (rest + [x])[1..] == rest[1..] + [x];
      }
    }
  }

  /** Splitting separator-free fields joined by the separator gives the fields back. */
  lemma {:induction false} SplitJoin(fields: seq<string>, sep: char)
    requires |fields| >= 1
    requires forall i :: 0 <= i < |fields| ==> sep !in fields[i]
    ensures Split(Join(fields, sep), sep) == fields
  {
    if |fields| == 1 {
      SplitSepFreePrefix(fields[0], [], sep);
      assert fields[0] + [] == fields[0];
    } else {
      var j := Join(fields[1..], sep);
      SplitJoin(fields[1..], sep);
      assert fields[0] + [sep] + j == fields[0] + ([sep] + j);
      SplitSepFreePrefix(fields[0], [sep] + j, sep);
      assert ([sep] + j)[1..] == j;
      assert Split([sep] + j, sep) == [[]] + fields[1..];
      assert fields[0] + [] == fields[0];
    }
  }

  predicate IsDigit(c: char) {
    '0' <= c <= '9'
  }

  function DigitValue(c: char): nat
    requires IsDigit(c)
  {
    c as int - '0' as int
  }

  function DigitChar(d: nat): char
    requires d < 10
  {
    (d + '0' as int) as char
  }

  /**
   * The digit string `int()` accepts after the sign: ASCII digits, starting
   * with a digit, where an underscore may only stand before a digit (so
   * underscores are single and never at either end).
   */
  predicate WellFormedDigits(u: string) {
    && |u| > 0
    && IsDigit(u[0])
    && (forall i :: 0 <= i < |u| ==> IsDigit(u[i]) || u[i] == '_')
    && (forall i :: 0 <= i < |u| && u[i] == '_' ==> i + 1 < |u| && IsDigit(u[i + 1]))
  }

  /** The decimal value of digits, underscores ignored. */
  function DigitsValue(u: string): nat
    requires forall i :: 0 <= i < |u| ==> IsDigit(u[i]) || u[i] == '_'
  {
    if u == [] then 0
    else if u[|u| - 1] == '_' then DigitsValue(u[..|u| - 1])
    else 10 * DigitsValue(u[..|u| - 1]) + DigitValue(u[|u| - 1])
  }

  /**
   * The whitespace `int()` skips around a number. The C `isspace` characters
   * (`\t` to `\r` and space) and the non-ASCII characters `str.isspace()`
   * accepts are skipped. The ASCII separators U+001C to U+001F are not,
   * although `strip()` removes them.
   */
  predicate IsIntSpace(c: char) {
    IsSpace(c) && !('\U{1c}' <= c <= '\U{1f}')
  }

  /** The leading whitespace `int()` skips. */
  function IntSkipLeft(s: string): string {
    if |s| > 0 && IsIntSpace(s[0]) then IntSkipLeft(s[1..]) else s
  }

  /** The trailing whitespace `int()` skips. */
  function IntSkipRight(s: string): string {
    if |s| > 0 && IsIntSpace(s[|s| - 1]) then IntSkipRight(s[..|s| - 1]) else s
  }

  function IntSkip(s: string): string {
    IntSkipRight(IntSkipLeft(s))
  }

  /** A string with no `int()` whitespace at either end is left whole. */
  lemma IntSkipNoEdgeSpace(s: string)
    requires s == [] || (!IsIntSpace(s[0]) && !IsIntSpace(s[|s| - 1]))
    ensures IntSkip(s) == s
  {
  }

  /**
   * `sys.get_int_max_str_digits()` at its default: `int()` refuses a decimal
   * string with more digits than this, and `str()` an integer with more.
   */
  const IntMaxStrDigits: nat := 4300

  /** The digits of `u` that count against the limit: every character but the underscores. */
  predicate WithinDigitLimit(u: string) {
    |u| - Count(u, '_') <= IntMaxStrDigits
  }

  /**
   * `int(s)` on a string: surrounding whitespace is ignored, an optional `+`
   * or `-` sign, then base-10 digits, at most `IntMaxStrDigits` of them.
   * `None` stands for the `ValueError` Python raises on anything else (the
   * empty string, a lone sign, letters, a decimal point, a space after the
   * sign, a U+001C to U+001F separator, too many digits).
   */
  function ParseInt(s: string): Option<int> {
    ParseNumber(IntSkip(s))
  }

  /** What `int()` makes of the text between the skipped whitespace. */
  function ParseNumber(t: string): Option<int> {
    if |t| > 0 && (t[0] == '-' || t[0] == '+') then
      var u := t[1..];
      if WellFormedDigits(u) && WithinDigitLimit(u) then
        var v: int := DigitsValue(u);
        Some(if t[0] == '-' then -v else v)
      else None
    else if WellFormedDigits(t) && WithinDigitLimit(t) then Some(DigitsValue(t))
    else None
  }

  /** A character that does not occur is counted zero times. */
  lemma {:induction false} CountAbsent(s: string, c: char)
    requires c !in s
    ensures Count(s, c) == 0
  {
    if s != [] {
      assert forall x :: x in s[1..] ==> x in s;
      CountAbsent(s[1..], c);
    }
  }

  /** Plain ASCII digits are well formed, and within the limit exactly when there are few enough. */
  lemma DigitsAccepted(u: string)
    requires |u| > 0 && forall i :: 0 <= i < |u| ==> IsDigit(u[i])
    ensures WellFormedDigits(u)
    ensures WithinDigitLimit(u) <==> |u| <= IntMaxStrDigits
  {
    assert '_' !in u;
    CountAbsent(u, '_');
  }

  /** A non-empty string of ASCII digits is read as its decimal value, unless it has too many digits. */
  lemma ParseIntOfDigits(s: string)
    requires |s| > 0 && forall i :: 0 <= i < |s| ==> IsDigit(s[i])
    ensures ParseInt(s) == if |s| <= IntMaxStrDigits then Some(DigitsValue(s)) else None
  {
    IntSkipNoEdgeSpace(s);
    DigitsAccepted(s);
    assert !(s[0] == '-' || s[0] == '+');
  }

  /** `str(n)` for a natural number: its decimal digits without leading zeros. */
  function NatDigits(n: nat): (r: string)
    ensures |r| > 0
    ensures forall i :: 0 <= i < |r| ==> IsDigit(r[i])
  {
    if n < 10 then [DigitChar(n)] else NatDigits(n / 10) + [DigitChar(n % 10)]
  }

  function Abs(n: int): nat {
    if n < 0 then -n else n
  }

  /** The digits of `str(n)`, sign left out. */
  function DecimalDigits(n: int): nat {
    |NatDigits(Abs(n))|
  }

  /** `str(n)` for an integer, as written when it has at most `IntMaxStrDigits` digits (otherwise `str` raises). */
  function Decimal(n: int): string {
    if n < 0 then "-" + NatDigits(-n) else NatDigits(n)
  }

  lemma {:induction false} NatDigitsValue(n: nat)
    ensures DigitsValue(NatDigits(n)) == n
  {
    if n >= 10 {
      var r := NatDigits(n);
      NatDigitsValue(n / 10);
      assert r[..|r| - 1] == NatDigits(n / 10);
    }
  }

  /**
   * `int(str(n)) == n` for every integer `str` renders; the digit string of
   * an integer with more than `IntMaxStrDigits` digits is rejected by `int()`.
   */
  lemma ParseIntDecimal(n: int)
    ensures ParseInt(Decimal(n)) == if DecimalDigits(n) <= IntMaxStrDigits then Some(n) else None
  {
    var m := Abs(n);
    var u := NatDigits(m);
    NatDigitsValue(m);
    if n >= 0 {
      assert Decimal(n) == u;
      ParseIntOfDigits(u);
    } else {
      var d := Decimal(n);
      assert d[0] == '-' && d[1..] == u;
      ParseIntOfNegatedDigits(d);
    }
  }

  /** A minus sign before ASCII digits negates their value, within the same digit limit. */
  lemma ParseIntOfNegatedDigits(t: string)
    requires |t| > 1 && t[0] == '-' && forall i :: 1 <= i < |t| ==> IsDigit(t[i])
    ensures var v: int := DigitsValue(t[1..]);
            ParseInt(t) == if |t| - 1 <= IntMaxStrDigits then Some(-v) else None
  {
    IntSkipNoEdgeSpace(t);
    ParseNumberNegated(t);
  }

  /** A minus sign followed by ASCII digits is the negated value, within the digit limit. */
  lemma ParseNumberNegated(t: string)
    requires |t| > 1 && t[0] == '-' && forall i :: 1 <= i < |t| ==> IsDigit(t[i])
    ensures var v: int := DigitsValue(t[1..]);
            ParseNumber(t) == if |t| - 1 <= IntMaxStrDigits then Some(-v) else None
  {
    DigitsAccepted(t[1..]);
  }

  /** `strip()` removes a leading U+001C, but `int()` rejects it. */
  lemma SeparatorIsNotIntSpace()
    ensures Strip("\U{1c}5") == "5"
    ensures ParseInt("\U{1c}5") == None
  {
    assert "\U{1c}5"[1..] == "5";
  }
}
