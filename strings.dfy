/**
 * The Python 2 string operations the page generator relies on, written over
 * `string` (= seq<char>): prefix and suffix tests, `in`, `replace`, `strip`,
 * `'%s' % n`, `int(s)` and `os.path.join`.
 */
module PyStr {

  datatype Option<T> = None | Some(value: T)

  /** `s.startswith(p)` */
  predicate StartsWith(s: string, p: string) {
    |p| <= |s| && s[..|p|] == p
  }

  /** `s.endswith(p)` */
  predicate EndsWith(s: string, p: string) {
    |p| <= |s| && s[|s| - |p|..] == p
  }

  /** `p in s`: p occurs at some position of s (the empty string occurs everywhere). */
  predicate Contains(s: string, p: string)
    decreases |s|
  {
    StartsWith(s, p) || (|s| > 0 && Contains(s[1..], p))
  }

  /** Every character of t belongs to ws. */
  predicate AllIn(t: string, ws: set<char>) {
    forall k :: 0 <= k < |t| ==> t[k] in ws
  }

  /**
   * `s.replace(pat, rep)`: the string is scanned left to right; each occurrence
   * of pat that starts after the end of the previous one becomes rep, every
   * other character is copied. Every pattern the program passes is non-empty.
   */
  function Replace(s: string, pat: string, rep: string): (r: string)
    requires pat != []
    ensures |pat| == |rep| ==> |r| == |s|
    decreases |s|
  {
    if s == [] then []
    else if StartsWith(s, pat) then rep + Replace(s[|pat|..], pat, rep)
    else [s[0]] + Replace(s[1..], pat, rep)
  }

  /** A string with no occurrence of the pattern is returned unchanged. */
  lemma {:induction false} ReplaceAbsent(s: string, pat: string, rep: string)
    requires pat != [] && !Contains(s, pat)
    ensures Replace(s, pat, rep) == s
    decreases |s|
  {
    if s != [] {
      ReplaceAbsent(s[1..], pat, rep);
    }
  }

  /** Replacing one character by one character is a pointwise substitution. */
  lemma {:induction false} ReplaceCharAt(s: string, a: char, b: char)
    ensures |Replace(s, [a], [b])| == |s|
    ensures forall k :: 0 <= k < |s| ==>
      Replace(s, [a], [b])[k] == if s[k] == a then b else s[k]
    decreases |s|
  {
    if s != [] {
      ReplaceCharAt(s[1..], a, b);
      var r := Replace(s, [a], [b]);
      var r' := Replace(s[1..], [a], [b]);
      assert r == [if s[0] == a then b else s[0]] + r';
    }
  }

  /** After replacing a character by a different one, none of it is left. */
  lemma ReplaceCharRemoves(s: string, a: char, b: char)
    requires a != b
    ensures a !in Replace(s, [a], [b])
  {
    var r := Replace(s, [a], [b]);
    ReplaceCharAt(s, a, b);
    forall k | 0 <= k < |r| ensures r[k] != a { }
  }

  /** A character found neither in s nor in rep is not in the result. */
  lemma {:induction false} ReplaceNoNewChar(s: string, pat: string, rep: string, c: char)
    requires pat != [] && c !in s && c !in rep
    ensures c !in Replace(s, pat, rep)
    decreases |s|
  {
    if s != [] {
      if StartsWith(s, pat) {
        ReplaceNoNewChar(s[|pat|..], pat, rep, c);
      } else {
        ReplaceNoNewChar(s[1..], pat, rep, c);
      }
    }
  }

  /** A leading occurrence is the first one replaced. */
  lemma ReplaceLeading(pat: string, s: string, rep: string)
    requires pat != []
    ensures Replace(pat + s, pat, rep) == rep + Replace(s, pat, rep)
  {
    assert StartsWith(pat + s, pat);
    assert (pat + s)[|pat|..] == s;
  }

  /** An occurrence needs room: a pattern longer than the string is not in it. */
  lemma {:induction false} ContainsNeedsRoom(s: string, p: string)
    requires |p| > |s|
    ensures !Contains(s, p)
    decreases |s|
  {
    if s != [] {
      ContainsNeedsRoom(s[1..], p);
    }
  }

  /** A string occurs in any string built around it. */
  lemma {:induction false} ContainsMiddle(a: string, b: string, c: string)
    ensures Contains(a + b + c, b)
    decreases |a|
  {
    if a == [] {
      assert a + b + c == b + c;
      assert (b + c)[..|b|] == b;
    } else {
      assert (a + b + c)[1..] == a[1..] + b + c;
      ContainsMiddle(a[1..], b, c);
    }
  }

  /** A pattern whose first character is not in the string does not occur in it. */
  lemma {:induction false} AbsentFirstChar(s: string, p: string)
    requires p != [] && p[0] !in s
    ensures !Contains(s, p)
    decreases |s|
  {
    if s != [] {
      AbsentFirstChar(s[1..], p);
    }
  }

  /** The characters of a prefix are those of the string it starts. */
  lemma PrefixAt(u: string, pat: string, k: nat)
    requires StartsWith(u, pat) && k < |pat|
    ensures pat[k] == u[k]
  {
    assert pat[k] == u[..|pat|][k];
  }

  /**
   * A tail sharing no character with the pattern is never touched by a
   * replacement: no occurrence can reach into it.
   */
  lemma {:induction false} ReplaceDisjointTail(x: string, t: string, pat: string, rep: string)
    requires pat != []
    requires forall k :: 0 <= k < |pat| ==> pat[k] !in t
    ensures Replace(x + t, pat, rep) == Replace(x, pat, rep) + t
    decreases |x| + |t|
  {
    if x == [] {
      assert x + t == t;
      AbsentFirstChar(t, pat);
      ReplaceAbsent(t, pat, rep);
    } else if StartsWith(x + t, pat) {
      if |pat| > |x| {
        PrefixAt(x + t, pat, |x|);
      }
      assert StartsWith(x, pat) by { assert x[..|pat|] == (x + t)[..|pat|]; }
      assert (x + t)[|pat|..] == x[|pat|..] + t;
      ReplaceDisjointTail(x[|pat|..], t, pat, rep);
    } else {
      assert !StartsWith(x, pat);
      assert (x + t)[1..] == x[1..] + t;
      ReplaceDisjointTail(x[1..], t, pat, rep);
    }
  }

  // ---------------------------------------------------------------- strip

  /** The characters `str.isspace()` accepts in a Python 2 byte string. */
  const AsciiSpace: set<char> := {' ', '\t', '\n', '\r', '\U{0B}', '\U{0C}'}

  /** The characters `unicode.isspace()` accepts in Python 2.7 (Unicode 5.2 tables). */
  const UnicodeSpace: set<char> := AsciiSpace + {
    '\U{1C}', '\U{1D}', '\U{1E}', '\U{1F}', '\U{85}', '\U{A0}', '\U{1680}', '\U{180E}',
    '\U{2000}', '\U{2001}', '\U{2002}', '\U{2003}', '\U{2004}', '\U{2005}', '\U{2006}',
    '\U{2007}', '\U{2008}', '\U{2009}', '\U{200A}', '\U{2028}', '\U{2029}', '\U{202F}',
    '\U{205F}', '\U{3000}'}

  /** Length of the longest prefix of s made of characters of ws. */
  function LeadingCount(s: string, ws: set<char>): (n: nat)
    ensures n <= |s| && AllIn(s[..n], ws)
    ensures n < |s| ==> s[n] !in ws
    decreases |s|
  {
    if s != [] && s[0] in ws then
      var m := LeadingCount(s[1..], ws);
      assert s[..m + 1] == [s[0]] + s[1..][..m];
      m + 1
    else 0
  }

  /** Length of the longest run of characters of ws that ends just before position end. */
  function TrailingRun(s: string, ws: set<char>, end: nat): (n: nat)
    requires end <= |s|
    ensures n <= end
    ensures forall k :: end - n <= k < end ==> s[k] in ws
    ensures n < end ==> s[end - 1 - n] !in ws
    decreases end
  {
    if end > 0 && s[end - 1] in ws then TrailingRun(s, ws, end - 1) + 1 else 0
  }

  /** Length of the longest suffix of s made of characters of ws. */
  function TrailingCount(s: string, ws: set<char>): (n: nat)
    ensures n <= |s|
    ensures forall k :: |s| - n <= k < |s| ==> s[k] in ws
    ensures n < |s| ==> s[|s| - 1 - n] !in ws
  {
    TrailingRun(s, ws, |s|)
  }

  /**
   * `s.strip()` with ws as the whitespace table: the leading and the trailing
   * run of ws are cut off, so the result neither starts nor ends with
   * whitespace (StripIsWindow: it is a window of s with only whitespace
   * outside it).
   */
  function StripChars(s: string, ws: set<char>): (r: string)
    ensures r == [] || (r[0] !in ws && r[|r| - 1] !in ws)
  {
    var i := LeadingCount(s, ws);
    var t := s[i..];
    var j := TrailingCount(t, ws);
    var r := t[..|t| - j];
    assert r != [] ==> r[0] == s[i] && r[|r| - 1] == t[|t| - 1 - j];
    r
  }

  /** What strip keeps is a window of s, and everything on either side of it is whitespace. */
  lemma StripIsWindow(s: string, ws: set<char>)
    ensures var r := StripChars(s, ws);
      exists i :: 0 <= i <= |s| - |r| && r == s[i..i + |r|]
                  && AllIn(s[..i], ws) && AllIn(s[i + |r|..], ws)
  {
    var i := LeadingCount(s, ws);
    var t := s[i..];
    var j := TrailingCount(t, ws);
    var r := t[..|t| - j];
    assert r == s[i..i + |r|];
    var after := s[i + |r|..];
    forall k | 0 <= k < |after| ensures after[k] in ws {
      assert after[k] == t[|t| - j + k];
    }
    assert 0 <= i <= |s| - |r| && AllIn(s[..i], ws) && AllIn(after, ws);
  }

  /** The leading run of ws stops at the first character outside ws. */
  lemma {:induction false} LeadingStopsAt(s: string, ws: set<char>, p: nat)
    requires p < |s| && s[p] !in ws
    ensures LeadingCount(s, ws) <= p
    decreases |s|
  {
    if s[0] in ws {
      LeadingStopsAt(s[1..], ws, p - 1);
    }
  }

  /** The trailing run of ws stops at the last character outside ws. */
  lemma TrailingStopsAt(s: string, ws: set<char>, p: nat)
    requires p < |s| && s[p] !in ws
    ensures TrailingCount(s, ws) <= |s| - 1 - p
  {
    assert TrailingCount(s, ws) == TrailingRun(s, ws, |s|);
  }

  /**
   * A suffix made of non-whitespace characters survives stripping.
   */
  lemma StripKeepsSuffix(s: string, q: string, ws: set<char>)
    requires EndsWith(s, q) && q != []
    requires forall k :: 0 <= k < |q| ==> q[k] !in ws
    ensures EndsWith(StripChars(s, ws), q)
  {
    assert s[|s| - 1] == q[|q| - 1] && s[|s| - |q|] == q[0];
    LeadingStopsAt(s, ws, |s| - |q|);
    var i := LeadingCount(s, ws);
    var t := s[i..];
    assert t[|t| - 1] == s[|s| - 1];
    TrailingStopsAt(t, ws, |t| - 1);
    assert StripChars(s, ws) == t;
    assert t[|t| - |q|..] == s[|s| - |q|..];
  }

  /** Stripping brings in no character. */
  lemma StripNoNewChar(s: string, ws: set<char>, c: char)
    requires c !in s
    ensures c !in StripChars(s, ws)
  {
    var i := LeadingCount(s, ws);
    var t := s[i..];
    var r := t[..|t| - TrailingCount(t, ws)];
    assert StripChars(s, ws) == r;
    forall k | 0 <= k < |r| ensures r[k] != c { assert r[k] == s[i + k]; }
  }

  /** `unicode.strip()` */
  function Strip(s: string): string {
    StripChars(s, UnicodeSpace)
  }

  /** Stripping twice strips nothing more. */
  lemma StripIdempotent(s: string)
    ensures Strip(Strip(s)) == Strip(s)
  {
    var r := Strip(s);
    var i := LeadingCount(r, UnicodeSpace);
    assert i == 0 by { if r != [] { assert r[0] !in UnicodeSpace; } }
    assert r[i..] == r;
    var j := TrailingCount(r, UnicodeSpace);
    assert j == 0 by { if r != [] { assert r[|r| - 1] !in UnicodeSpace; } }
  }

  // ------------------------------------------------------------- integers

  predicate IsDigit(c: char) {
    '0' <= c <= '9'
  }

  predicate AllDigits(s: string) {
    forall k :: 0 <= k < |s| ==> IsDigit(s[k])
  }

  /** The decimal value of a digit string, most significant digit first. */
  function DigitsValue(s: string): nat
    requires AllDigits(s)
    decreases |s|
  {
    if s == [] then 0
    else 10 * DigitsValue(s[..|s| - 1]) + (s[|s| - 1] as int - '0' as int)
  }

  /** `'%s' % n` for a non-negative int: its decimal digits, no leading zero. */
  function NatToString(n: nat): (r: string)
    ensures r != [] && AllDigits(r)
    ensures |r| > 1 ==> r[0] != '0'
    decreases n
  {
    if n < 10 then ["0123456789"[n]]
    else NatToString(n / 10) + ["0123456789"[n % 10]]
  }

  /** The digits of n read back give n. */
  lemma {:induction false} DigitsValueOfNatToString(n: nat)
    ensures DigitsValue(NatToString(n)) == n
    decreases n
  {
    var r := NatToString(n);
    if n >= 10 {
      DigitsValueOfNatToString(n / 10);
      assert r[..|r| - 1] == NatToString(n / 10);
    }
  }

  /** Splits an optional leading sign off a string: (negative?, rest). */
  function SplitSign(t: string): (bool, string) {
    if t != [] && t[0] == '-' then (true, t[1..])
    else if t != [] && t[0] == '+' then (false, t[1..])
    else (false, t)
  }

  /**
   * `int(s)` on a Python 2 byte string in base 10: surrounding ASCII whitespace,
   * an optional sign, more ASCII whitespace (CPython 2.7 skips it again after
   * the sign, so `int('- 5') == -5`) and at least one decimal digit; anything
   * else is the ValueError, here None. Leading zeros are accepted
   * (`int('0301') == 301`).
   */
  function ParseInt(s: string): Option<int> {
    var t := StripChars(s, AsciiSpace);
    var (neg, u) := SplitSign(t);
    var d := u[LeadingCount(u, AsciiSpace)..];
    if d != [] && AllDigits(d) then
      var v: int := DigitsValue(d);
      Some(if neg then -v else v)
    else None
  }

  /** A string that neither starts nor ends with whitespace is not changed by strip. */
  lemma StripNothing(s: string, ws: set<char>)
    requires s != [] ==> s[0] !in ws && s[|s| - 1] !in ws
    ensures StripChars(s, ws) == s
  {
    assert LeadingCount(s, ws) == 0;
    assert s[0..] == s;
    assert TrailingCount(s, ws) == 0;
  }

  /** `int` reads back what `'%s' %` wrote. */
  lemma ParseIntOfNatToString(n: nat)
    ensures ParseInt(NatToString(n)) == Some(n)
  {
    var r := NatToString(n);
    assert IsDigit(r[0]) && IsDigit(r[|r| - 1]);
    StripNothing(r, AsciiSpace);
    assert SplitSign(r) == (false, r);
    assert LeadingCount(r, AsciiSpace) == 0 && r[0..] == r;
    DigitsValueOfNatToString(n);
  }

  /** Whitespace between the sign and the digits is skipped: `int('- 5') == -5`. */
  lemma ParseIntSpaceAfterSign(n: nat)
    ensures ParseInt(['-', ' '] + NatToString(n)) == Some(-(n as int))
  {
    var r := NatToString(n);
    var s := ['-', ' '] + r;
    assert s[0] == '-' && s[|s| - 1] == r[|r| - 1];
    StripNothing(s, AsciiSpace);
    assert s[1..] == [' '] + r;
    assert SplitSign(StripChars(s, AsciiSpace)) == (true, [' '] + r);
    OneSpaceSkipped(r);
    DigitsValueOfNatToString(n);
    SignedValue(s, true, [' '] + r, r);
  }

  /** ParseInt with the sign and the digits already found. */
  lemma SignedValue(s: string, neg: bool, u: string, d: string)
    requires SplitSign(StripChars(s, AsciiSpace)) == (neg, u)
    requires u[LeadingCount(u, AsciiSpace)..] == d && d != [] && AllDigits(d)
    ensures ParseInt(s) == Some(if neg then -(DigitsValue(d) as int) else DigitsValue(d))
  {
  }

  /** A single space before a digit string is the whole leading run of whitespace. */
  lemma OneSpaceSkipped(r: string)
    requires r != [] && IsDigit(r[0])
    ensures LeadingCount([' '] + r, AsciiSpace) == 1 && ([' '] + r)[1..] == r
  {
    assert ([' '] + r)[1..] == r;
  }

  /** A leading zero does not change a digit string's value. */
  lemma {:induction false} DigitsValueLeadingZero(d: string)
    requires AllDigits(d)
    ensures AllDigits("0" + d) && DigitsValue("0" + d) == DigitsValue(d)
    decreases |d|
  {
    var z := "0" + d;
    if d != [] {
      assert z[..|z| - 1] == "0" + d[..|d| - 1];
      DigitsValueLeadingZero(d[..|d| - 1]);
    }
  }

  /** `int` accepts a zero-padded number: `int('0301') == 301`. */
  lemma ParseIntZeroPadded(n: nat)
    ensures ParseInt("0" + NatToString(n)) == Some(n)
  {
    var r := NatToString(n);
    var z := "0" + r;
    assert IsDigit(z[0]) && IsDigit(z[|z| - 1]);
    StripNothing(z, AsciiSpace);
    assert SplitSign(z) == (false, z);
    assert LeadingCount(z, AsciiSpace) == 0 && z[0..] == z;
    DigitsValueLeadingZero(r);
    DigitsValueOfNatToString(n);
  }

  /** A string with no digit at all (such as `ZZ`) is not a number. */
  lemma ParseIntNeedsDigit(s: string)
    requires forall k :: 0 <= k < |s| ==> !IsDigit(s[k])
    ensures ParseInt(s) == None
  {
  }

  // ----------------------------------------------------------------- paths

  /** `os.path.join(a, b)` on POSIX. */
  function Join(a: string, b: string): (r: string)
    ensures EndsWith(r, b)
    ensures StartsWith(b, "/") || StartsWith(r, a)
  {
    if StartsWith(b, "/") then b
    else if a == [] || EndsWith(a, "/") then a + b
    else a + "/" + b
  }
}
