/** The .NET string operations the version code relies on: character
    classes of the version regex, `String.Split(char)`, ordinal string
    comparison, and `int.Parse` / `int.TryParse` on decimal text. */
module Text {
  import opened Common

  predicate IsDigit(c: char) { '0' <= c <= '9' }
  predicate IsNonZeroDigit(c: char) { '1' <= c <= '9' }
  predicate IsLetterOrHyphen(c: char) { 'a' <= c <= 'z' || 'A' <= c <= 'Z' || c == '-' }
  /** The class `[0-9a-zA-Z-]`. */
  predicate IsIdentChar(c: char) { IsDigit(c) || IsLetterOrHyphen(c) }
  /** The white space that `NumberStyles.Integer` lets surround a number. */
  predicate IsWhite(c: char) { c == ' ' || '\t' <= c <= '\r' }

  predicate AllDigits(t: string) { forall k | 0 <= k < |t| :: IsDigit(t[k]) }
  predicate AllIdentChars(t: string) { forall k | 0 <= k < |t| :: IsIdentChar(t[k]) }

  function DigitValue(c: char): nat
    requires IsDigit(c)
  {
    (c as int) - ('0' as int)
  }

  /** The number a string of decimal digits denotes (no range check). */
  function DigitsValue(t: string): nat
    requires AllDigits(t)
  {
    if t == [] then 0 else 10 * DigitsValue(t[..|t| - 1]) + DigitValue(t[|t| - 1])
  }

  /** `int.Parse` on the digit strings the version regex captures: the value,
      or `OverflowException` when it exceeds `int.MaxValue`. */
  function ParseInt32(t: string): (r: Result<Int32>)
    requires AllDigits(t)
    ensures r.Ok? <==> DigitsValue(t) <= MaxInt32
    ensures r.Ok? ==> r.value == DigitsValue(t)
    ensures r.Err? ==> r.error == OverflowException
  {
    var v := DigitsValue(t);
    if v <= MaxInt32 then Ok(v) else Err(OverflowException)
  }

  /** How many white-space characters `t` starts with. */
  function LeadingWhite(t: string): (n: nat)
    ensures n <= |t|
    ensures forall k | 0 <= k < n :: IsWhite(t[k])
    ensures n == |t| || !IsWhite(t[n])
  {
    if t != [] && IsWhite(t[0]) then 1 + LeadingWhite(t[1..]) else 0
  }

  /** How many white-space characters `t` ends with. */
  function TrailingWhite(t: string): (n: nat)
    ensures n <= |t|
    ensures forall k | |t| - n <= k < |t| :: IsWhite(t[k])
    ensures n == |t| || !IsWhite(t[|t| - n - 1])
  {
    if t != [] && IsWhite(t[|t| - 1]) then 1 + TrailingWhite(t[..|t| - 1]) else 0
  }

  /** `int.TryParse(t, out n)` with `NumberStyles.Integer` and the invariant
      culture: optional white space, an optional sign, at least one decimal
      digit, optional white space, and a value that fits in an `int`. */
  function IntTryParse(t: string): (r: Option<Int32>)
  {
    var start := LeadingWhite(t);
    var end := |t| - TrailingWhite(t[start..]);
    SignedNumber(t[start..end])
  }

  /** A number is read only from text that holds a digit, and a negative one
      only from text that holds a minus sign. */
  lemma IntTryParseSeesDigit(t: string)
    ensures IntTryParse(t).Some? ==> exists i | 0 <= i < |t| :: IsDigit(t[i])
    ensures IntTryParse(t).Some? && IntTryParse(t).value < 0 ==> exists i | 0 <= i < |t| :: t[i] == '-'
  {
    var start := LeadingWhite(t);
    var end := |t| - TrailingWhite(t[start..]);
    var u := t[start..end];
    if SignedNumber(u).Some? {
      assert t[end - 1] == u[|u| - 1];
      assert t[start] == u[0];
    }
  }

  /** The text between the white space: an optional sign and decimal digits
      whose value fits in an `int`. */
  function SignedNumber(u: string): (r: Option<Int32>)
    ensures r.Some? ==> u != [] && IsDigit(u[|u| - 1])
    ensures r.Some? && r.value < 0 ==> u[0] == '-'
  {
    var negative := u != [] && u[0] == '-';
    var digits := if u != [] && (u[0] == '-' || u[0] == '+') then u[1..] else u;
    if digits == [] || !AllDigits(digits) then None
    else
      var v: int := if negative then -(DigitsValue(digits) as int) else DigitsValue(digits);
      if MinInt32 <= v <= MaxInt32 then Some(v) else None
  }

  /** Text that neither starts nor ends with white space is read as it is. */
  lemma IntTryParseUntrimmed(t: string)
    requires t == [] || (!IsWhite(t[0]) && !IsWhite(t[|t| - 1]))
    ensures IntTryParse(t) == SignedNumber(t)
  {
    assert LeadingWhite(t) == 0;
    assert t[0..] == t;
    assert TrailingWhite(t) == 0;
    assert t[0..|t|] == t;
  }

  /** A string with no sign and no digit at its start, and no white space
      around it, is not a number: in particular the empty string and every
      identifier that starts with a letter. */
  lemma IntTryParseNeedsDigit(t: string)
    requires t == [] || (IsLetterOrHyphen(t[0]) && t[0] != '-') || (t[0] == '-' && (|t| == 1 || !IsDigit(t[1])))
    requires t == [] || !IsWhite(t[|t| - 1])
    ensures IntTryParse(t) == None
  {
    IntTryParseUntrimmed(t);
  }

  /** A string of digits without sign or white space parses to its value
      when it fits. */
  lemma IntTryParseDigits(t: string)
    requires t != [] && AllDigits(t) && DigitsValue(t) <= MaxInt32
    ensures IntTryParse(t) == Some(DigitsValue(t))
  {
    IntTryParseUntrimmed(t);
  }

  /** A string that starts with a digit but has a character other than a
      digit, and does not end in white space, is not a number. */
  lemma IntTryParseNotNumber(t: string)
    requires t != [] && IsDigit(t[0]) && !AllDigits(t) && !IsWhite(t[|t| - 1])
    ensures IntTryParse(t) == None
  {
    IntTryParseUntrimmed(t);
  }

  /** A minus sign before digits negates their value. */
  lemma IntTryParseNegative(t: string)
    requires t != [] && AllDigits(t) && DigitsValue(t) <= MaxInt32
    ensures IntTryParse("-" + t) == Some(-(DigitsValue(t) as int))
  {
    var u := "-" + t;
    assert u[|u| - 1] == t[|t| - 1];
    IntTryParseUntrimmed(u);
    assert u[1..] == t;
  }

  /** `s.StartsWith(c)` for a character. */
  predicate StartsWithChar(s: string, c: char) { s != [] && s[0] == c }

  /** `s.EndsWith(c)` for a character. */
  predicate EndsWithChar(s: string, c: char) { s != [] && s[|s| - 1] == c }

  /** `s.StartsWith(prefix)` for a string, compared ordinally. */
  predicate StartsWith(s: string, prefix: string) {
    |prefix| <= |s| && s[..|prefix|] == prefix
  }

  /** `string.Compare(a, b, StringComparison.Ordinal)`, reduced to its sign:
      character by character, a proper prefix first. */
  function OrdinalCompare(a: string, b: string): (r: int)
    ensures -1 <= r <= 1
    ensures r == 0 <==> a == b
  {
    if a == [] && b == [] then 0
    else if a == [] then -1
    else if b == [] then 1
    else if a[0] < b[0] then -1
    else if a[0] > b[0] then 1
    else
      assert a == [a[0]] + a[1..] && b == [b[0]] + b[1..];
      OrdinalCompare(a[1..], b[1..])
  }

  lemma {:induction false} OrdinalCompareAntisymmetric(a: string, b: string)
    ensures OrdinalCompare(a, b) == -OrdinalCompare(b, a)
  {
    if a != [] && b != [] && a[0] == b[0] {
      OrdinalCompareAntisymmetric(a[1..], b[1..]);
    }
  }

  /** Index of the first occurrence of `c` in `s`. */
  function IndexOf(s: string, c: char): (i: nat)
    requires c in s
    ensures i < |s| && s[i] == c && c !in s[..i]
  {
    if s[0] == c then 0 else 1 + IndexOf(s[1..], c)
  }

  /** The first position holding `c` is the one `IndexOf` finds. */
  lemma IndexOfFirst(s: string, c: char, n: nat)
    requires n < |s| && s[n] == c && c !in s[..n]
    ensures IndexOf(s, c) == n
  {
  }

  /** `s.Split(sep)`: the pieces between the separators, empty pieces kept,
      so `""` splits into `[""]`. */
  function Split(s: string, sep: char): (parts: seq<string>)
    ensures |parts| >= 1
    ensures forall k | 0 <= k < |parts| :: sep !in parts[k]
    decreases |s|
  {
    if sep !in s then [s]
    else
      var i := IndexOf(s, sep);
      [s[..i]] + Split(s[i + 1..], sep)
  }

  /** `string.Join(sep, parts)`. */
  function Join(parts: seq<string>, sep: char): string
    requires |parts| >= 1
  {
    if |parts| == 1 then parts[0] else parts[0] + [sep] + Join(parts[1..], sep)
  }

  /** Splitting loses nothing: joining the pieces gives the string back. */
  lemma {:induction false} JoinSplit(s: string, sep: char)
    ensures Join(Split(s, sep), sep) == s
    decreases |s|
  {
    if sep in s {
      var i := IndexOf(s, sep);
      var parts := Split(s, sep);
      assert parts == [s[..i]] + Split(s[i + 1..], sep);
      assert parts[1..] == Split(s[i + 1..], sep);
      JoinSplit(s[i + 1..], sep);
      assert Join(parts, sep) == s[..i] + [sep] + s[i + 1..];
      assert s == s[..i] + [sep] + s[i + 1..];
    }
  }

  /** And splitting a join of separator-free pieces gives the pieces back. */
  lemma {:induction false} SplitJoin(parts: seq<string>, sep: char)
    requires |parts| >= 1
    requires forall k | 0 <= k < |parts| :: sep !in parts[k]
    ensures Split(Join(parts, sep), sep) == parts
  {
    if |parts| > 1 {
      SplitFirst(parts[0], Join(parts[1..], sep), sep);
      SplitJoin(parts[1..], sep);
      assert parts == [parts[0]] + parts[1..];
    } else {
      assert Join(parts, sep) == parts[0];
    }
  }

  /** A piece free of the separator, then the separator, splits off first. */
  lemma SplitFirst(a: string, rest: string, sep: char)
    requires sep !in a
    ensures Split(a + [sep] + rest, sep) == [a] + Split(rest, sep)
  {
    var s := a + [sep] + rest;
    assert s[..|a|] == a && s[|a| + 1..] == rest;
    IndexOfFirst(s, sep, |a|);
  }
}
