/**
 * Character classes and the small string routines of the JavaScript runtime that the editor
 * relies on: ASCII lower-casing, runs of characters (what a global `/\d+/g` or a class-list split
 * yields), decimal values and `parseInt`.
 */
module Strings {
  import opened Wrappers

  predicate IsDigit(c: char) { '0' <= c <= '9' }

  /** The ASCII white space that separates tokens of a class attribute. */
  predicate IsSpace(c: char) { c == ' ' || c == '\t' || c == '\n' || c == '\r' || c == '\U{C}' }

  predicate IsNotSpace(c: char) { !IsSpace(c) }

  /**
   * The white space and line terminators JavaScript skips before a number: tab, vertical tab,
   * form feed, the byte-order mark, line and paragraph separators, and every space separator.
   */
  predicate IsJsSpace(c: char)
  {
    c == '\t' || c == '\n' || c == '\U{B}' || c == '\U{C}' || c == '\r' || c == ' ' || c == '\U{A0}'
    || c == '\U{1680}' || '\U{2000}' <= c <= '\U{200A}' || c == '\U{2028}' || c == '\U{2029}'
    || c == '\U{202F}' || c == '\U{205F}' || c == '\U{3000}' || c == '\U{FEFF}'
  }

  function ToLowerChar(c: char): char
  {
    if 'A' <= c <= 'Z' then (c as int - 'A' as int + 'a' as int) as char else c
  }

  /** `String.prototype.toLowerCase`, restricted to ASCII letters (tag names are ASCII). */
  function ToLower(s: string): (r: string)
    ensures |r| == |s|
    ensures forall i :: 0 <= i < |s| ==> r[i] == ToLowerChar(s[i])
  {
    seq(|s|, i requires 0 <= i < |s| => ToLowerChar(s[i]))
  }

  /** Length of the longest prefix of `s` whose characters all satisfy `p`. */
  function RunLength(s: string, p: char -> bool): (n: nat)
    ensures n <= |s|
    ensures forall i :: 0 <= i < n ==> p(s[i])
    ensures n < |s| ==> !p(s[n])
  {
    if s == [] || !p(s[0]) then 0 else 1 + RunLength(s[1..], p)
  }

  /**
   * The maximal runs of characters satisfying `p`, left to right: `s.match(/\d+/g)` for
   * `p == IsDigit` (with `[]` for JavaScript's `null`), the class list of an element for
   * `p == IsNotSpace`.
   */
  function Runs(s: string, p: char -> bool): (r: seq<string>)
    ensures forall k :: 0 <= k < |r| ==> r[k] != [] && forall i :: 0 <= i < |r[k]| ==> p(r[k][i])
    decreases |s|
  {
    if s == [] then []
    else if !p(s[0]) then Runs(s[1..], p)
    else
      var n := RunLength(s, p);
      [s[..n]] + Runs(s[n..], p)
  }

  /** Runs are unaffected by a leading stretch of characters outside the class. */
  lemma {:induction false} RunsSkip(pre: string, s: string, p: char -> bool)
    requires forall i :: 0 <= i < |pre| ==> !p(pre[i])
    ensures Runs(pre + s, p) == Runs(s, p)
    decreases |pre|
  {
    if pre != [] {
      assert (pre + s)[0] == pre[0] && !p(pre[0]);
      assert (pre + s)[1..] == pre[1..] + s;
      RunsSkip(pre[1..], s, p);
      assert Runs(pre + s, p) == Runs((pre + s)[1..], p);
    } else {
      assert pre + s == s;
    }
  }

  /** A whole run followed by a character outside the class is split off as one token. */
  lemma {:induction false} RunsCons(run: string, s: string, p: char -> bool)
    requires run != [] && forall i :: 0 <= i < |run| ==> p(run[i])
    requires s == [] || !p(s[0])
    ensures Runs(run + s, p) == [run] + Runs(s, p)
  {
    RunLengthOfRun(run, s, p);
    assert (run + s)[..|run|] == run;
    assert (run + s)[|run|..] == s;
  }

  lemma {:induction false} RunLengthOfRun(run: string, s: string, p: char -> bool)
    requires forall i :: 0 <= i < |run| ==> p(run[i])
    requires s == [] || !p(s[0])
    ensures RunLength(run + s, p) == |run|
    decreases |run|
  {
    if run != [] {
      assert (run + s)[1..] == run[1..] + s;
      RunLengthOfRun(run[1..], s, p);
    }
  }

  predicate AllDigits(s: string) { forall i :: 0 <= i < |s| ==> IsDigit(s[i]) }

  /** The value of a decimal digit string (leading zeros allowed), as `parseInt` reads it. */
  function DecimalValue(s: string): (v: nat)
    requires AllDigits(s)
    decreases |s|
  {
    if s == [] then 0 else DecimalValue(s[..|s| - 1]) * 10 + (s[|s| - 1] as int - '0' as int)
  }

  /** `Number.prototype.toString()` for a non-negative integer: decimal, no leading zeros. */
  function Decimal(n: nat): (s: string)
    ensures s != [] && AllDigits(s)
    ensures n > 0 ==> s[0] != '0'
  {
    if n < 10 then ['0' + n as char] else Decimal(n / 10) + ['0' + (n % 10) as char]
  }

  lemma {:induction false} DecimalRoundTrip(n: nat)
    ensures DecimalValue(Decimal(n)) == n
  {
    if n >= 10 {
      DecimalRoundTrip(n / 10);
      var s := Decimal(n);
      assert s[..|s| - 1] == Decimal(n / 10);
    }
  }

  /**
   * `parseInt(s)` in base 10: leading white space, an optional sign, then the longest run of
   * digits; `None` (JavaScript's `NaN`) when there is no digit.
   */
  function ParseInt(s: string): (r: Option<int>)
    decreases |s|
  {
    if s != [] && IsJsSpace(s[0]) then ParseInt(s[1..])
    else
      var negative := s != [] && s[0] == '-';
      var body := if s != [] && (s[0] == '-' || s[0] == '+') then s[1..] else s;
      var n := RunLength(body, IsDigit);
      if n == 0 then None
      else
        var v: int := DecimalValue(body[..n]);
        Some(if negative then -v else v)
  }

  /** Reading back the decimal rendering of a count, with any non-digit suffix such as `px`. */
  lemma ParseIntOfDecimal(n: nat, suffix: string)
    requires suffix == [] || !IsDigit(suffix[0])
    ensures ParseInt(Decimal(n) + suffix) == Some(n)
  {
    var s := Decimal(n) + suffix;
    assert s[0] == Decimal(n)[0];
    RunLengthOfRun(Decimal(n), suffix, IsDigit);
    assert s[..|Decimal(n)|] == Decimal(n);
    DecimalRoundTrip(n);
  }

  /** The characters of `s` that satisfy `keep`, in order (`s.replace(/[…]/g, '')`). */
  function Filter(s: string, keep: char -> bool): (r: string)
    ensures |r| <= |s|
    ensures forall i :: 0 <= i < |r| ==> keep(r[i])
  {
    if s == [] then []
    else (if keep(s[0]) then [s[0]] else []) + Filter(s[1..], keep)
  }

  /** Every kept character keeps its number of occurrences; every other one is gone. */
  lemma {:induction false} FilterCounts(s: string, keep: char -> bool, c: char)
    ensures multiset(Filter(s, keep))[c] == if keep(c) then multiset(s)[c] else 0
    decreases |s|
  {
    if s != [] {
      FilterCounts(s[1..], keep, c);
      assert s == [s[0]] + s[1..];
    }
  }

  lemma {:induction false} FilterAppend(a: string, b: string, keep: char -> bool)
    ensures Filter(a + b, keep) == Filter(a, keep) + Filter(b, keep)
    decreases |a|
  {
    if a != [] {
      assert (a + b)[0] == a[0];
      assert (a + b)[1..] == a[1..] + b;
      FilterAppend(a[1..], b, keep);
      var head := if keep(a[0]) then [a[0]] else [];
      calc {
        Filter(a + b, keep);
        head + Filter(a[1..] + b, keep);
        head + (Filter(a[1..], keep) + Filter(b, keep));
        (head + Filter(a[1..], keep)) + Filter(b, keep);
      }
    } else {
      assert a + b == b;
    }
  }

  /** Removing characters is idempotent, and keeps a string with nothing to remove as it is. */
  lemma {:induction false} FilterKeepsKept(s: string, keep: char -> bool)
    requires forall i :: 0 <= i < |s| ==> keep(s[i])
    ensures Filter(s, keep) == s
    decreases |s|
  {
    if s != [] {
      FilterKeepsKept(s[1..], keep);
    }
  }

  lemma {:induction false} FilterDropsAll(s: string, keep: char -> bool)
    requires forall i :: 0 <= i < |s| ==> !keep(s[i])
    ensures Filter(s, keep) == []
    decreases |s|
  {
    if s != [] {
      FilterDropsAll(s[1..], keep);
    }
  }
}
