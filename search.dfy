/**
 * Search: the cursor over the search markers (next and previous with wrap-around, and which
 * marker carries the "current" class), and the escaping of the query into a regular
 * expression that matches it literally.
 */
module Search {

  // ---- Cursor arithmetic ----

  /** JavaScript's `%` on integers: the remainder has the sign of the dividend. */
  function JsRem(a: int, n: int): (r: int)
    requires n > 0
    ensures -n < r < n
    ensures a >= 0 ==> r == a % n
    ensures a < 0 ==> r <= 0
    ensures (a - r) % n == 0
  {
    if a >= 0 then
      DivisionRemainder(a, n);
      a % n
    else
      DivisionRemainder(-a, n);
      -((-a) % n)
  }

  /** Taking the remainder off leaves a multiple of the divisor. */
  lemma DivisionRemainder(a: int, n: int)
    requires n > 0
    ensures (a - a % n) % n == 0 && (a % n - a) % n == 0
  {
    var q := a / n;
    assert a - a % n == q * n;
    MultipleRemainder(q, n);
    MultipleRemainder(-q, n);
    assert a % n - a == (-q) * n;
  }

  /** The remainder of a multiple is 0: the quotient of `q * n` can only be `q`. */
  lemma MultipleRemainder(q: int, n: int)
    requires n > 0
    ensures (q * n) % n == 0
  {
    var x := q * n;
    var d, r := x / n, x % n;
    assert x == d * n + r && 0 <= r < n;
    var k := q - d;
    assert k * n == q * n - d * n;
    assert k * n == r;
    if k >= 1 {
      AtLeastDivisor(k, n);
    } else if k <= -1 {
      AtLeastDivisor(-k, n);
    }
  }

  lemma {:induction false} AtLeastDivisor(k: int, n: int)
    requires k >= 1 && n > 0
    ensures k * n >= n
    decreases k
  {
    if k > 1 {
      AtLeastDivisor(k - 1, n);
      assert k * n == (k - 1) * n + n;
    }
  }

  /** `goToNextMatch`: the next index, wrapping to 0; unchanged when there are no results. */
  function NextIndex(i: int, n: nat): int
  {
    if n == 0 then i else JsRem(i + 1, n)
  }

  /** `goToPrevMatch`: the previous index, wrapping to the last; unchanged when there are no results. */
  function PrevIndex(i: int, n: nat): int
  {
    if n == 0 then i else JsRem(i - 1 + n, n)
  }

  /**
   * From any index a cursor can hold (one of the `n` results, or -1 for none) both moves land
   * on a result.
   */
  lemma NavigationInRange(i: int, n: nat)
    requires n > 0 && -1 <= i < n
    ensures 0 <= NextIndex(i, n) < n
    ensures 0 <= PrevIndex(i, n) < n
  {
    if i == -1 && n == 1 {
      assert PrevIndex(i, n) == JsRem(-1, 1) == 0;
    }
  }

  /** On a result, next steps forward and wraps from the last to the first; previous the reverse. */
  lemma NavigationWraps(i: int, n: nat)
    requires 0 <= i < n
    ensures NextIndex(i, n) == if i == n - 1 then 0 else i + 1
    ensures PrevIndex(i, n) == if i == 0 then n - 1 else i - 1
  {
    ModBelowTwice(i + 1, n);
    ModBelowTwice(i - 1 + n, n);
  }

  /** The remainder of a number below `2 * n`. */
  lemma ModBelowTwice(x: int, n: int)
    requires n > 0 && 0 <= x < 2 * n
    ensures x % n == if x < n then x else x - n
  {
    var q, r := x / n, x % n;
    assert x == q * n + r && 0 <= r < n;
  }

  /** Next and previous undo each other. */
  lemma NavigationInverse(i: int, n: nat)
    requires 0 <= i < n
    ensures PrevIndex(NextIndex(i, n), n) == i
    ensures NextIndex(PrevIndex(i, n), n) == i
  {
    NavigationWraps(i, n);
    NavigationWraps(NextIndex(i, n), n);
    NavigationWraps(PrevIndex(i, n), n);
  }

  // ---- The current marker ----

  /** Which of `n` markers carry the "current" class after `highlightCurrentMatch(index)`. */
  function CurrentFlags(n: nat, index: int): (flags: seq<bool>)
    ensures |flags| == n
  {
    seq(n, j => j == index)
  }

  function CountTrue(s: seq<bool>): nat
  {
    if s == [] then 0 else (if s[0] then 1 else 0) + CountTrue(s[1..])
  }

  /** Exactly one marker is current when the index is in range, and none otherwise. */
  lemma {:induction false} CurrentFlagsCount(n: nat, index: int)
    ensures CountTrue(CurrentFlags(n, index)) == if 0 <= index < n then 1 else 0
    ensures 0 <= index < n ==> CurrentFlags(n, index)[index]
  {
    if n > 0 {
      var s := CurrentFlags(n, index);
      assert s[1..] == CurrentFlags(n - 1, index - 1);
      CurrentFlagsCount(n - 1, index - 1);
    }
  }

  /**
   * After either move on an unchanged set of `n` markers, exactly one of them is current, and
   * it is the one the new index names.
   */
  lemma MoveMarksOne(i: int, n: nat)
    requires n > 0 && -1 <= i < n
    ensures CountTrue(CurrentFlags(n, NextIndex(i, n))) == 1 && CurrentFlags(n, NextIndex(i, n))[NextIndex(i, n)]
    ensures CountTrue(CurrentFlags(n, PrevIndex(i, n))) == 1 && CurrentFlags(n, PrevIndex(i, n))[PrevIndex(i, n)]
  {
    NavigationInRange(i, n);
    CurrentFlagsCount(n, NextIndex(i, n));
    CurrentFlagsCount(n, PrevIndex(i, n));
  }

  /**
   * When an edit has removed markers since the search, so that the index lies past the markers
   * left in the document, highlighting marks none of them as current.
   */
  lemma StaleIndexMarksNone(live: nat, i: int)
    requires live <= i
    ensures CountTrue(CurrentFlags(live, i)) == 0
  {
    CurrentFlagsCount(live, i);
  }

  /**
   * The search state of the editor: the index of the current result (-1 when there is none)
   * and the number of results found by the last search. The markers themselves live in the
   * document and are passed in as an array of flags, true where a marker carries the "current"
   * class; their number is read afresh on every highlight, so after an edit it can differ from
   * the number of results.
   */
  class SearchCursor {
    var index: int
    var results: nat

    predicate Valid()
      reads this
    {
      if results == 0 then index == -1 else 0 <= index < results
    }

    /** No search yet: no results and no current index. */
    constructor()
      ensures Valid() && results == 0 && index == -1
    {
      index := -1;
      results := 0;
    }

    /**
     * The end of a search that found the markers `markers`: they become the results, and the
     * first one, if any, is current.
     */
    method Found(markers: array<bool>)
      modifies this, markers
      ensures Valid() && results == markers.Length
      ensures results == 0 ==> index == -1 && markers[..] == old(markers[..])
      ensures results > 0 ==> index == 0 && markers[..] == old(markers[..])[0 := true]
    {
      results := markers.Length;
      if results > 0 {
        index := 0;
        markers[0] := true;
      } else {
        index := -1;
      }
    }

    /** An empty query, or closing the search bar: no results and no current index. */
    method Reset()
      modifies this
      ensures Valid() && results == 0 && index == -1
    {
      results := 0;
      index := -1;
    }

    /**
     * `highlightCurrentMatch` over the markers found in the document: the class is removed from
     * every marker, then added to the one at `idx` when that is in range; nothing happens when
     * there are no markers.
     */
    method HighlightCurrent(markers: array<bool>, idx: int)
      modifies markers
      ensures markers.Length == 0 ==> markers[..] == old(markers[..])
      ensures markers.Length > 0 ==> markers[..] == CurrentFlags(markers.Length, idx)
    {
      if markers.Length == 0 {
        return;
      }
      var j := 0;
      while j < markers.Length
        invariant 0 <= j <= markers.Length
        invariant forall k :: 0 <= k < j ==> !markers[k]
      {
        markers[j] := false;
        j := j + 1;
      }
      if 0 <= idx < markers.Length {
        markers[idx] := true;
      }
    }

    /**
     * `goToNextMatch`: with results, the index moves on modulo the number of results and the
     * markers in the document are highlighted for it; without results nothing changes.
     */
    method GoToNext(markers: array<bool>)
      requires Valid()
      modifies this, markers
      ensures Valid() && results == old(results)
      ensures results == 0 ==> index == old(index) && markers[..] == old(markers[..])
      ensures results > 0 ==> index == NextIndex(old(index), results)
      ensures results > 0 && markers.Length == 0 ==> markers[..] == old(markers[..])
      ensures results > 0 && markers.Length > 0 ==> markers[..] == CurrentFlags(markers.Length, index)
    {
      if results == 0 {
        return;
      }
      NavigationInRange(index, results);
      index := NextIndex(index, results);
      HighlightCurrent(markers, index);
    }

    /**
     * `goToPrevMatch`: with results, the index moves back modulo the number of results and the
     * markers in the document are highlighted for it; without results nothing changes.
     */
    method GoToPrev(markers: array<bool>)
      requires Valid()
      modifies this, markers
      ensures Valid() && results == old(results)
      ensures results == 0 ==> index == old(index) && markers[..] == old(markers[..])
      ensures results > 0 ==> index == PrevIndex(old(index), results)
      ensures results > 0 && markers.Length == 0 ==> markers[..] == old(markers[..])
      ensures results > 0 && markers.Length > 0 ==> markers[..] == CurrentFlags(markers.Length, index)
    {
      if results == 0 {
        return;
      }
      NavigationInRange(index, results);
      index := PrevIndex(index, results);
      HighlightCurrent(markers, index);
    }
  }

  // ---- Escaping the query ----

  /** The characters `[.*+?^${}()|[\]\\]` that have a meaning in a regular expression. */
  predicate IsRegexSpecial(c: char)
  {
    c in ".*+?^${}()|[]\\"
  }

  /** `query.replace(/[.*+?^${}()|[\]\\]/g, '\\$&')`: each special character gets a backslash. */
  function EscapeRegex(q: string): (p: string)
    ensures |q| <= |p| <= 2 * |q|
  {
    if q == [] then []
    else (if IsRegexSpecial(q[0]) then ['\\', q[0]] else [q[0]]) + EscapeRegex(q[1..])
  }

  /**
   * A pattern made only of literal atoms: characters without a meaning, and special characters
   * escaped by a backslash.
   */
  predicate IsLiteralPattern(p: string)
    decreases |p|
  {
    p == [] ||
    (!IsRegexSpecial(p[0]) && IsLiteralPattern(p[1..])) ||
    (|p| >= 2 && p[0] == '\\' && IsRegexSpecial(p[1]) && IsLiteralPattern(p[2..]))
  }

  /** The string a literal pattern matches: each atom stands for its character. */
  function LiteralText(p: string): string
    requires IsLiteralPattern(p)
    decreases |p|
  {
    if p == [] then []
    else if !IsRegexSpecial(p[0]) then [p[0]] + LiteralText(p[1..])
    else [p[1]] + LiteralText(p[2..])
  }

  /** The escaped query is a literal pattern, and the string it stands for is the query itself. */
  lemma {:induction false} EscapeRegexLiteral(q: string)
    ensures IsLiteralPattern(EscapeRegex(q))
    ensures LiteralText(EscapeRegex(q)) == q
  {
    if q != [] {
      EscapeRegexLiteral(q[1..]);
      var p := EscapeRegex(q);
      var rest := EscapeRegex(q[1..]);
      if IsRegexSpecial(q[0]) {
        assert p[2..] == rest;
      } else {
        assert p[1..] == rest;
      }
    }
  }
}
