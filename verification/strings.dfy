/** Python `str` operations the build tool relies on, over `seq<char>`. */
module Strings {

  // ---------------------------------------------------------------------
  // Prefixes and substrings
  // ---------------------------------------------------------------------

  /** `s.startswith(p)` */
  predicate StartsWith(s: string, p: string) {
    |p| <= |s| && s[..|p|] == p
  }

  /** `p in s`: `p` occurs somewhere in `s` (the empty string occurs everywhere). */
  predicate Contains(s: string, p: string)
    decreases |s|
  {
    StartsWith(s, p) || (|s| > 0 && Contains(s[1..], p))
  }

  /** Every character of a substring also occurs in the string. */
  lemma {:induction false} ContainsChars(s: string, p: string, c: char)
    requires Contains(s, p)
    requires c in p
    ensures c in s
    decreases |s|
  {
    if StartsWith(s, p) {
      assert s[..|p|] == p;
      var k :| 0 <= k < |p| && p[k] == c;
      assert s[k] == c;
    } else {
      ContainsChars(s[1..], p, c);
      assert c in s[1..];
    }
  }

  /** A pattern holding a character the string lacks does not occur in it. */
  lemma AbsentChar(s: string, p: string, c: char)
    requires c in p && c !in s
    ensures !Contains(s, p)
  {
    if Contains(s, p) {
      ContainsChars(s, p, c);
    }
  }

  /** An occurrence in a prefix is an occurrence in the whole. */
  lemma {:induction false} ContainsInPrefix(a: string, b: string, p: string)
    requires Contains(a, p)
    ensures Contains(a + b, p)
    decreases |a|
  {
    if StartsWith(a, p) {
      assert (a + b)[..|p|] == a[..|p|];
    } else {
      ContainsInPrefix(a[1..], b, p);
      assert (a + b)[1..] == a[1..] + b;
    }
  }

  /** An occurrence in a suffix is an occurrence in the whole. */
  lemma {:induction false} ContainsInSuffix(a: string, b: string, p: string)
    requires Contains(b, p)
    ensures Contains(a + b, p)
    decreases |a|
  {
    if |a| == 0 {
      assert a + b == b;
    } else {
      ContainsInSuffix(a[1..], b, p);
      assert (a + b)[1..] == a[1..] + b;
    }
  }

  /** `s.rfind(x)` / the last position of `x`: -1 when absent. */
  function LastIndexOf<T(==)>(s: seq<T>, x: T): (i: int)
    ensures -1 <= i < |s|
    ensures i == -1 <==> x !in s
    ensures 0 <= i ==> s[i] == x && x !in s[i + 1..]
  {
    if |s| == 0 then -1
    else if s[|s| - 1] == x then |s| - 1
    else
      var init := s[..|s| - 1];
      var i := LastIndexOf(init, x);
      assert s == init + [s[|s| - 1]];
      assert i >= 0 ==> s[i + 1..] == init[i + 1..] + [s[|s| - 1]];
      i
  }

  /** The last occurrence is the one with no occurrence after it. */
  lemma LastIndexOfAt<T>(s: seq<T>, x: T, i: nat)
    requires i < |s| && s[i] == x && x !in s[i + 1..]
    ensures LastIndexOf(s, x) == i
  {
  }

  // ---------------------------------------------------------------------
  // str.split with a one-character separator, and its inverse
  // ---------------------------------------------------------------------

  /** `s.split(sep)`: the pieces between separators; never empty. */
  function Split(s: string, sep: char): (parts: seq<string>)
    ensures |parts| >= 1
    ensures forall k :: 0 <= k < |parts| ==> sep !in parts[k]
    decreases |s|
  {
    if |s| == 0 then [""]
    else if s[0] == sep then [""] + Split(s[1..], sep)
    else
      var rest := Split(s[1..], sep);
      [[s[0]] + rest[0]] + rest[1..]
  }

  /** `sep.join(parts)` */
  function Join(parts: seq<string>, sep: char): string
  {
    if |parts| == 0 then ""
    else if |parts| == 1 then parts[0]
    else parts[0] + [sep] + Join(parts[1..], sep)
  }

  /** Splitting and re-joining gives back the original string. */
  lemma {:induction false} JoinSplit(s: string, sep: char)
    ensures Join(Split(s, sep), sep) == s
    decreases |s|
  {
    if |s| == 0 {
    } else if s[0] == sep {
      JoinSplit(s[1..], sep);
      assert s == [sep] + s[1..];
    } else {
      var rest := Split(s[1..], sep);
      JoinSplit(s[1..], sep);
      if |rest| == 1 {
        assert s == [s[0]] + rest[0];
      } else {
        assert Split(s, sep)[1..] == rest[1..];
        assert s == [s[0]] + (rest[0] + [sep] + Join(rest[1..], sep));
      }
    }
  }

  /** A string without the separator splits into itself. */
  lemma {:induction false} SplitWithoutSeparator(s: string, sep: char)
    requires sep !in s
    ensures Split(s, sep) == [s]
    decreases |s|
  {
    if |s| > 0 {
      assert sep !in s[1..];
      SplitWithoutSeparator(s[1..], sep);
      assert s == [s[0]] + s[1..];
    }
  }

  /** The first separator cuts off the first piece; the rest splits on its own. */
  lemma {:induction false} SplitAtFirst(a: string, sep: char, b: string)
    requires sep !in a
    ensures Split(a + [sep] + b, sep) == [a] + Split(b, sep)
    decreases |a|
  {
    if |a| == 0 {
      assert a + [sep] + b == [sep] + b;
      assert (a + [sep] + b)[1..] == b;
    } else {
      var s := a + [sep] + b;
      assert s[1..] == a[1..] + [sep] + b;
      SplitAtFirst(a[1..], sep, b);
      assert [a[0]] + a[1..] == a;
    }
  }

  /** Joining pieces that do not contain the separator and splitting again gives the pieces back. */
  lemma {:induction false} SplitJoin(parts: seq<string>, sep: char)
    requires |parts| >= 1
    requires forall k :: 0 <= k < |parts| ==> sep !in parts[k]
    ensures Split(Join(parts, sep), sep) == parts
    decreases |parts|
  {
    if |parts| == 1 {
      SplitWithoutSeparator(parts[0], sep);
    } else {
      SplitJoin(parts[1..], sep);
      SplitAtFirst(parts[0], sep, Join(parts[1..], sep));
      assert [parts[0]] + parts[1..] == parts;
    }
  }

  /** The string starts with its first piece, followed by the separator when there are more. */
  lemma SplitHead(s: string, sep: char)
    ensures StartsWith(s, Split(s, sep)[0])
    ensures |Split(s, sep)| > 1 ==> StartsWith(s, Split(s, sep)[0] + [sep])
  {
    var parts := Split(s, sep);
    JoinSplit(s, sep);
    if |parts| > 1 {
      assert s == parts[0] + [sep] + Join(parts[1..], sep);
      assert s[..|parts[0]| + 1] == parts[0] + [sep];
    } else {
      assert s == parts[0];
    }
  }

  // ---------------------------------------------------------------------
  // str.replace(pat, rep): every non-overlapping occurrence, left to right
  // ---------------------------------------------------------------------

  /** `s.replace("", rep)`: `rep` before every character and at the end. */
  function Interleave(s: string, rep: string): string
    decreases |s|
  {
    if |s| == 0 then rep else rep + [s[0]] + Interleave(s[1..], rep)
  }

  /** `s.replace(pat, rep)`, scanning left to right and resuming after each match. */
  function ReplaceAll(s: string, pat: string, rep: string): string
    decreases |s|
  {
    if |pat| == 0 then Interleave(s, rep)
    else if StartsWith(s, pat) then rep + ReplaceAll(s[|pat|..], pat, rep)
    else if |s| == 0 then ""
    else [s[0]] + ReplaceAll(s[1..], pat, rep)
  }

  /** Replacing a pattern that does not occur leaves the string unchanged. */
  lemma {:induction false} ReplaceAbsent(s: string, pat: string, rep: string)
    requires !Contains(s, pat)
    ensures ReplaceAll(s, pat, rep) == s
    decreases |s|
  {
    if |s| > 0 {
      ReplaceAbsent(s[1..], pat, rep);
      assert [s[0]] + s[1..] == s;
    }
  }

  /** A leading occurrence is replaced and scanning resumes right after it. */
  lemma ReplaceLeading(pat: string, t: string, rep: string)
    requires |pat| > 0
    ensures ReplaceAll(pat + t, pat, rep) == rep + ReplaceAll(t, pat, rep)
  {
    assert (pat + t)[..|pat|] == pat;
    assert (pat + t)[|pat|..] == t;
  }

  // ---------------------------------------------------------------------
  // str.strip("\n\t ")
  // ---------------------------------------------------------------------

  /** The characters `strip("\n\t ")` removes. */
  predicate IsBlank(c: char) {
    c == '\n' || c == '\t' || c == ' '
  }

  predicate AllBlank(s: string) {
    forall k :: 0 <= k < |s| ==> IsBlank(s[k])
  }

  /** `s.lstrip("\n\t ")` */
  function TrimStart(s: string): (r: string)
    ensures |r| <= |s| && r == s[|s| - |r|..]
    ensures AllBlank(s[..|s| - |r|])
    ensures |r| == 0 || !IsBlank(r[0])
    decreases |s|
  {
    if |s| > 0 && IsBlank(s[0]) then
      var r := TrimStart(s[1..]);
      TrimStartStep(s, r);
      r
    else s
  }

  /** Stripping one more leading blank keeps the stripped text a blank-framed suffix. */
  lemma TrimStartStep(s: string, r: string)
    requires |s| > 0 && IsBlank(s[0])
    requires |r| <= |s| - 1 && r == s[1..][|s| - 1 - |r|..]
    requires AllBlank(s[1..][..|s| - 1 - |r|])
    ensures r == s[|s| - |r|..]
    ensures AllBlank(s[..|s| - |r|])
  {
    var n := |s| - |r|;
    assert s[..n] == [s[0]] + s[1..][..n - 1];
  }

  /** `s.rstrip("\n\t ")` */
  function TrimEnd(s: string): (r: string)
    ensures |r| <= |s| && r == s[..|r|]
    ensures AllBlank(s[|r|..])
    ensures |r| == 0 || !IsBlank(r[|r| - 1])
    decreases |s|
  {
    if |s| > 0 && IsBlank(s[|s| - 1]) then TrimEnd(s[..|s| - 1]) else s
  }

  /** `s.strip("\n\t ")`: `s` is the result framed by blank runs, and the result has no blank ends. */
  function Strip(s: string): (r: string)
    ensures exists i :: 0 <= i <= |s| - |r| && s[i..i + |r|] == r && AllBlank(s[..i]) && AllBlank(s[i + |r|..])
    ensures |r| == 0 || (!IsBlank(r[0]) && !IsBlank(r[|r| - 1]))
  {
    var t := TrimStart(s);
    var r := TrimEnd(t);
    StripFrame(s, t, r);
    r
  }

  /** A blank-framed middle of a blank-framed suffix is a blank-framed slice of the whole. */
  lemma StripFrame(s: string, t: string, r: string)
    requires |t| <= |s| && t == s[|s| - |t|..] && AllBlank(s[..|s| - |t|])
    requires |t| == 0 || !IsBlank(t[0])
    requires |r| <= |t| && r == t[..|r|] && AllBlank(t[|r|..])
    requires |r| == 0 || !IsBlank(r[|r| - 1])
    ensures |r| == 0 || (!IsBlank(r[0]) && !IsBlank(r[|r| - 1]))
    ensures exists i :: 0 <= i <= |s| - |r| && s[i..i + |r|] == r && AllBlank(s[..i]) && AllBlank(s[i + |r|..])
  {
    var i := |s| - |t|;
    assert s[i..i + |r|] == r by {
      assert s[i..i + |r|] == s[i..][..|r|];
    }
    assert s[i + |r|..] == t[|r|..];
  }

  // ---------------------------------------------------------------------
  // str(n) for n >= 0, and digit strings
  // ---------------------------------------------------------------------

  predicate IsDigit(c: char) {
    '0' <= c <= '9'
  }

  predicate AllDigits(s: string) {
    forall k :: 0 <= k < |s| ==> IsDigit(s[k])
  }

  function DigitChar(d: nat): char
    requires d < 10
  {
    (48 + d) as char
  }

  /** `str(n)`: the decimal digits of `n`, most significant first. */
  function Decimal(n: nat): (s: string)
    ensures |s| >= 1
    ensures AllDigits(s)
  {
    if n < 10 then [DigitChar(n)] else Decimal(n / 10) + [DigitChar(n % 10)]
  }

  /** The number a digit string denotes (`int(s)`). */
  function DigitsValue(s: string): nat
    requires AllDigits(s)
  {
    if |s| == 0 then 0 else DigitsValue(s[..|s| - 1]) * 10 + (s[|s| - 1] as int - 48)
  }

  /** Reading back the decimal digits gives the number. */
  lemma {:induction false} DecimalRoundTrip(n: nat)
    ensures DigitsValue(Decimal(n)) == n
  {
    if n >= 10 {
      DecimalRoundTrip(n / 10);
      var s := Decimal(n);
      assert s[..|s| - 1] == Decimal(n / 10);
    }
  }

  /** Different numbers have different decimal strings. */
  lemma DecimalInjective(m: nat, n: nat)
    requires Decimal(m) == Decimal(n)
    ensures m == n
  {
    DecimalRoundTrip(m);
    DecimalRoundTrip(n);
  }

  /**
   * A digit string followed by a text that starts with a non-digit can be
   * cut apart in only one way.
   */
  lemma DigitsThenMark(a: string, s1: string, b: string, s2: string)
    requires AllDigits(a) && AllDigits(b)
    requires |s1| > 0 && !IsDigit(s1[0])
    requires |s2| > 0 && !IsDigit(s2[0])
    requires a + s1 == b + s2
    ensures a == b && s1 == s2
  {
    assert a == (a + s1)[..|a|];
    assert b == (b + s2)[..|b|];
    assert s1 == (a + s1)[|a|..];
    assert s2 == (b + s2)[|b|..];
  }
}
