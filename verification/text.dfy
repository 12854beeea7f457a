/** String primitives of the two standard libraries the system relies on:
    Go's `strings` package (backend) and JavaScript's `String.prototype`
    (frontend). Strings are sequences of Unicode code points. */
module Text {

  type Str = seq<char>

  /** Go's `unicode.IsSpace`: the Latin-1 spaces plus the Unicode
      White_Space characters above Latin-1. */
  predicate GoIsSpace(c: char) {
    c == '\t' || c == '\n' || c == '\U{000B}' || c == '\U{000C}' || c == '\r' || c == ' '
    || c == '\U{0085}' || c == '\U{00A0}' || c == '\U{1680}'
    || ('\U{2000}' <= c <= '\U{200A}')
    || c == '\U{2028}' || c == '\U{2029}' || c == '\U{202F}' || c == '\U{205F}' || c == '\U{3000}'
  }

  /** The characters JavaScript's `trim` removes: WhiteSpace and
      LineTerminator of ECMA-262. Unlike Go it includes U+FEFF and
      excludes U+0085. */
  predicate JsIsSpace(c: char) {
    c == '\t' || c == '\n' || c == '\U{000B}' || c == '\U{000C}' || c == '\r' || c == ' '
    || c == '\U{00A0}' || c == '\U{FEFF}' || c == '\U{1680}'
    || ('\U{2000}' <= c <= '\U{200A}')
    || c == '\U{2028}' || c == '\U{2029}' || c == '\U{202F}' || c == '\U{205F}' || c == '\U{3000}'
  }

  /** Drops the leading characters satisfying `isSpace`. */
  function TrimLeft(s: Str, isSpace: char -> bool): (r: Str)
    ensures |r| <= |s| && r == s[|s| - |r|..]
    ensures |r| > 0 ==> !isSpace(r[0])
    ensures forall k :: 0 <= k < |s| - |r| ==> isSpace(s[k])
  {
    if |s| > 0 && isSpace(s[0]) then
      var r := TrimLeft(s[1..], isSpace);
      assert forall k :: 1 <= k < |s| - |r| ==> s[k] == s[1..][k - 1];
      r
    else
      s
  }

  /** Drops the trailing characters satisfying `isSpace`. */
  function TrimRight(s: Str, isSpace: char -> bool): (r: Str)
    ensures |r| <= |s| && r == s[..|r|]
    ensures |r| > 0 ==> !isSpace(r[|r| - 1])
    ensures forall k :: |r| <= k < |s| ==> isSpace(s[k])
  {
    if |s| > 0 && isSpace(s[|s| - 1]) then
      var r := TrimRight(s[..|s| - 1], isSpace);
      assert forall k :: |r| <= k < |s| - 1 ==> s[k] == s[..|s| - 1][k];
      r
    else
      s
  }

  /** `s` neither starts nor ends with a character satisfying `isSpace`. */
  predicate TrimmedBy(s: Str, isSpace: char -> bool) {
    |s| == 0 || (!isSpace(s[0]) && !isSpace(s[|s| - 1]))
  }

  /** Trimming on both sides: `strings.TrimSpace` / `String.prototype.trim`
      for the matching predicate. */
  function Trim(s: Str, isSpace: char -> bool): (r: Str)
    ensures TrimmedBy(r, isSpace)
    ensures |r| <= |s|
  {
    TrimRight(TrimLeft(s, isSpace), isSpace)
  }

  /** Trimming yields "" exactly when every character is a space. */
  lemma TrimEmpty(s: Str, isSpace: char -> bool)
    ensures Trim(s, isSpace) == [] <==> forall k :: 0 <= k < |s| ==> isSpace(s[k])
  {
    var l := TrimLeft(s, isSpace);
    if l != [] {
      assert !isSpace(s[|s| - |l|]);
    }
  }

  /** Trimming leaves an already trimmed string alone. */
  lemma TrimOfTrimmed(s: Str, isSpace: char -> bool)
    requires TrimmedBy(s, isSpace)
    ensures Trim(s, isSpace) == s
  {
  }

  /** Trimming never introduces a character. */
  lemma NotInSlice(s: Str, i: nat, j: nat, c: char)
    requires i <= j <= |s| && c !in s
    ensures c !in s[i..j]
  {
    forall k | 0 <= k < j - i ensures s[i..j][k] != c {
      assert s[i..j][k] == s[i + k];
    }
  }

  lemma TrimKeepsAbsent(s: Str, isSpace: char -> bool, c: char)
    requires c !in s
    ensures c !in Trim(s, isSpace)
  {
    var l := TrimLeft(s, isSpace);
    var r := TrimRight(l, isSpace);
    NotInSlice(s, |s| - |l|, |s|, c);
    NotInSlice(l, 0, |r|, c);
    assert l[0..|r|] == r;
  }

  lemma SliceOfSuffix(s: Str, lo: nat, n: nat)
    requires lo + n <= |s|
    ensures s[lo..][..n] == s[lo..lo + n]
  {
  }

  /** Where the trimmed string sits in its input: everything cut away on
      either side satisfies `isSpace`. */
  lemma TrimBounds(s: Str, isSpace: char -> bool) returns (lo: nat, hi: nat)
    ensures lo <= hi <= |s|
    ensures Trim(s, isSpace) == s[lo..hi]
    ensures forall k :: 0 <= k < lo ==> isSpace(s[k])
    ensures forall k :: hi <= k < |s| ==> isSpace(s[k])
  {
    var l := TrimLeft(s, isSpace);
    var r := TrimRight(l, isSpace);
    lo, hi := |s| - |l|, |s| - |l| + |r|;
    assert l == s[lo..];
    assert r == l[..|r|];
    SliceOfSuffix(s, lo, |r|);
    RightCutSpaces(s, l, r, lo, isSpace);
  }

  lemma RightCutSpaces(s: Str, l: Str, r: Str, lo: nat, isSpace: char -> bool)
    requires lo <= |s| && l == s[lo..] && |r| <= |l|
    requires forall k :: |r| <= k < |l| ==> isSpace(l[k])
    ensures forall k :: lo + |r| <= k < |s| ==> isSpace(s[k])
  {
    forall k | lo + |r| <= k < |s| ensures isSpace(s[k]) {
      assert s[k] == l[k - lo];
    }
  }

  function GoTrimSpace(s: Str): Str { Trim(s, GoIsSpace) }

  function JsTrim(s: Str): Str { Trim(s, JsIsSpace) }

  /** JavaScript truthiness of a string: only the empty string is falsy. */
  predicate Truthy(s: Str) { s != [] }

  /** `s.trim()` is truthy exactly when `s` has a non-whitespace character. */
  lemma JsTrimTruthy(s: Str)
    ensures Truthy(JsTrim(s)) <==> exists k :: 0 <= k < |s| && !JsIsSpace(s[k])
  {
    TrimEmpty(s, JsIsSpace);
  }

  /** Go's `strings.Join`. */
  function Join(ls: seq<Str>, sep: char): Str {
    if |ls| == 0 then []
    else if |ls| == 1 then ls[0]
    else ls[0] + [sep] + Join(ls[1..], sep)
  }

  /** Go's `strings.Split` on a one-character separator: the pieces between
      separators, always at least one. */
  function Split(s: Str, sep: char): (r: seq<Str>)
    ensures |r| >= 1
    ensures forall i :: 0 <= i < |r| ==> sep !in r[i]
    ensures Join(r, sep) == s
  {
    if |s| == 0 then [[]]
    else
      var rest := Split(s[1..], sep);
      if s[0] == sep then
        assert [s[0]] + s[1..] == s;
        [[]] + rest
      else
        var r := [[s[0]] + rest[0]] + rest[1..];
        assert Join(r, sep) == [s[0]] + Join(rest, sep);
        assert [s[0]] + s[1..] == s;
        r
  }

  /** Splitting at a separator that follows a separator-free prefix. */
  lemma {:induction false} SplitAfterPiece(a: Str, b: Str, sep: char)
    requires sep !in a
    ensures Split(a + [sep] + b, sep) == [a] + Split(b, sep)
  {
    if |a| == 0 {
      assert a + [sep] + b == [sep] + b;
      assert ([sep] + b)[1..] == b;
    } else {
      assert (a + [sep] + b)[1..] == a[1..] + [sep] + b;
      SplitAfterPiece(a[1..], b, sep);
      assert [a[0]] + a[1..] == a;
    }
  }

  /** A separator-free string is a single piece. */
  lemma {:induction false} SplitNoSeparator(a: Str, sep: char)
    requires sep !in a
    ensures Split(a, sep) == [a]
  {
    if |a| > 0 {
      SplitNoSeparator(a[1..], sep);
      assert [a[0]] + a[1..] == a;
    }
  }

  /** Split inverts Join when no piece contains the separator. */
  lemma {:induction false} SplitJoin(ls: seq<Str>, sep: char)
    requires |ls| >= 1
    requires forall i :: 0 <= i < |ls| ==> sep !in ls[i]
    ensures Split(Join(ls, sep), sep) == ls
  {
    if |ls| == 1 {
      SplitNoSeparator(ls[0], sep);
    } else {
      SplitJoin(ls[1..], sep);
      SplitAfterPiece(ls[0], Join(ls[1..], sep), sep);
      assert [ls[0]] + ls[1..] == ls;
    }
  }

  /** ASCII lower-casing of one character. */
  function AsciiLower(c: char): char {
    if 'A' <= c <= 'Z' then (c as int + 32) as char else c
  }

  predicate IsAsciiUpper(c: char) { 'A' <= c <= 'Z' }

  /** Go's `strings.ToLower`, restricted to ASCII letters. */
  function ToLowerAscii(s: Str): (r: Str)
    ensures |r| == |s|
    ensures forall i :: 0 <= i < |r| ==> !IsAsciiUpper(r[i])
    ensures forall i :: 0 <= i < |r| ==> (r[i] == s[i] || IsAsciiUpper(s[i]))
  {
    seq(|s|, i requires 0 <= i < |s| => AsciiLower(s[i]))
  }

  /** Lower-casing a string without upper-case letters changes nothing. */
  lemma ToLowerAsciiOfLower(s: Str)
    requires forall i :: 0 <= i < |s| ==> !IsAsciiUpper(s[i])
    ensures ToLowerAscii(s) == s
  {
  }

  /** Go's `strings.ReplaceAll` with a one-character pattern and replacement. */
  function ReplaceChar(s: Str, from: char, to: char): (r: Str)
    ensures |r| == |s|
    ensures from != to ==> from !in r
    ensures forall i :: 0 <= i < |s| && s[i] != from ==> r[i] == s[i]
  {
    seq(|s|, i requires 0 <= i < |s| => if s[i] == from then to else s[i])
  }

  /** Replacing a character that does not occur changes nothing. */
  lemma ReplaceCharAbsent(s: Str, from: char, to: char)
    requires from !in s
    ensures ReplaceChar(s, from, to) == s
  {
    var r := ReplaceChar(s, from, to);
    forall i | 0 <= i < |s| ensures r[i] == s[i] {
      assert s[i] in s;
    }
  }

  function DigitChar(d: nat): char
    requires d < 10
  {
    "0123456789"[d]
  }

  /** The digit character's code point offset is the digit. */
  lemma DigitCharValue(d: nat)
    requires d < 10
    ensures DigitChar(d) as int - '0' as int == d
  {
  }

  /** Decimal rendering of a natural number, as JavaScript and Go print
      integers. */
  function NatToString(n: nat): (r: Str)
    ensures |r| >= 1
    ensures forall i :: 0 <= i < |r| ==> '0' <= r[i] <= '9'
    ensures r[0] == '0' ==> n == 0
  {
    if n < 10 then [DigitChar(n)] else NatToString(n / 10) + [DigitChar(n % 10)]
  }

  /** Decimal rendering of an integer, with a leading '-' when negative. */
  function IntToString(i: int): Str {
    if i < 0 then "-" + NatToString(-i) else NatToString(i)
  }

  /** The value of a string of decimal digits: the inverse of NatToString. */
  function ParseDigits(s: Str): nat
    requires forall i :: 0 <= i < |s| ==> '0' <= s[i] <= '9'
  {
    if |s| == 0 then 0
    else ParseDigits(s[..|s| - 1]) * 10 + (s[|s| - 1] as int - '0' as int)
  }

  /** Reading back the decimal rendering gives the number. */
  lemma {:induction false} ParseNatToString(n: nat)
    ensures ParseDigits(NatToString(n)) == n
  {
    if n >= 10 {
      ParseNatToString(n / 10);
      var s := NatToString(n);
      assert s[..|s| - 1] == NatToString(n / 10);
      DigitCharValue(n % 10);
      assert ParseDigits(s) == ParseDigits(s[..|s| - 1]) * 10 + (s[|s| - 1] as int - '0' as int);
    } else {
      DigitCharValue(n);
    }
  }

  /** Distinct numbers render differently. */
  lemma NatToStringInjective(m: nat, n: nat)
    requires NatToString(m) == NatToString(n)
    ensures m == n
  {
    ParseNatToString(m);
    ParseNatToString(n);
  }

  /** Distinct integers render differently. */
  lemma IntToStringInjective(a: int, b: int)
    requires IntToString(a) == IntToString(b)
    ensures a == b
  {
    IntToStringSign(a);
    IntToStringSign(b);
    if a < 0 {
      NegativeTwins(a, b);
      NegatedInjective(-a, -b, a, b);
    } else {
      NatToStringInjective(a, b);
    }
  }

  lemma NegativeDigits(i: int)
    requires i < 0
    ensures IntToString(i)[1..] == NatToString(-i)
  {
    var d := NatToString(-i);
    assert IntToString(i) == "-" + d;
    assert ("-" + d)[1..] == d;
  }

  lemma NegativeTwins(a: int, b: int)
    requires a < 0 && b < 0 && IntToString(a) == IntToString(b)
    ensures NatToString(-a) == NatToString(-b)
  {
    NegativeDigits(a);
    NegativeDigits(b);
  }

  lemma NegatedInjective(m: nat, n: nat, a: int, b: int)
    requires m == -a && n == -b && NatToString(m) == NatToString(n)
    ensures a == b
  {
    NatToStringInjective(m, n);
  }

  /** A rendered integer starts with the sign exactly when it is negative. */
  lemma IntToStringSign(i: int)
    ensures |IntToString(i)| >= 1
    ensures IntToString(i)[0] == '-' <==> i < 0
  {
    if i >= 0 {
      assert IntToString(i)[0] == NatToString(i)[0];
    }
  }

  /** Every character of a rendered integer is a digit or the sign. */
  lemma IntToStringChars(i: int)
    ensures |IntToString(i)| >= 1
    ensures forall k :: 0 <= k < |IntToString(i)| ==> IntToString(i)[k] == '-' || '0' <= IntToString(i)[k] <= '9'
  {
    if i < 0 {
      var s := IntToString(i);
      forall k | 0 <= k < |s| ensures s[k] == '-' || '0' <= s[k] <= '9' {
        if k > 0 { assert s[k] == NatToString(-i)[k - 1]; }
      }
    }
  }
}
