/** The frame-token extractor: the search for the class constant
    `regexPattern`, a dot, one to one hundred ASCII digits and a dot, done by
    a hand-written left-to-right scan instead of a regular-expression engine. */
module FrameToken {
  import opened Results
  import opened Decimal

  /** The upper bound of the `{1,100}` repetition in the pattern. */
  const MaxDigits: nat := 100

  /** A successful search: the integer value of the digits and the half-open
      span `[start, end)` of the whole match, both dots included. */
  datatype Frame = Frame(value: nat, start: nat, end: nat)

  /** The pattern matches exactly the text `s[i..j]`: a dot, between one and
      `MaxDigits` digits, a dot. */
  predicate TokenAt(s: string, i: int, j: int) {
    && 0 <= i && i + 3 <= j <= |s|
    && j - i - 2 <= MaxDigits
    && s[i] == '.' && s[j - 1] == '.'
    && forall k :: i < k < j - 1 ==> IsDigit(s[k])
  }

  /** No match starts at a position in `[lo, hi)`. */
  ghost predicate NoTokenIn(s: string, lo: int, hi: int) {
    forall i, j :: lo <= i < hi ==> !TokenAt(s, i, j)
  }

  /** The digits between the dots of a match. */
  function TokenDigits(s: string, i: int, j: int): (d: string)
    requires TokenAt(s, i, j)
    ensures |d| == j - i - 2 && AllDigits(d)
  {
    var d := s[i + 1..j - 1];
    assert forall k :: 0 <= k < |d| ==> d[k] == s[i + 1 + k];
    d
  }

  /** The integer value of a match: `int()` of the digits between its dots. */
  function TokenValue(s: string, i: int, j: int): nat
    requires TokenAt(s, i, j)
  {
    Value(TokenDigits(s, i, j))
  }

  /** The length of the longest run of digits starting at `k`. */
  function RunLength(s: string, k: nat): (n: nat)
    requires k <= |s|
    ensures k + n <= |s|
    ensures forall m :: k <= m < k + n ==> IsDigit(s[m])
    ensures k + n == |s| || !IsDigit(s[k + n])
    decreases |s| - k
  {
    if k < |s| && IsDigit(s[k]) then 1 + RunLength(s, k + 1) else 0
  }

  /** The end of a match is fixed by its start: the digits run up to the
      closing dot. */
  lemma TokenEnd(s: string, i: int, j: int)
    requires TokenAt(s, i, j)
    ensures j == i + 2 + RunLength(s, i + 1)
  {
  }

  /** What the scanner tests at position `i`: a dot, then a maximal run of
      one to `MaxDigits` digits, then a dot. A longer run cannot match here,
      because backing off to fewer digits leaves a digit where the closing
      dot should be. */
  predicate MatchesAt(s: string, i: nat) {
    && i < |s| && s[i] == '.'
    && var n := RunLength(s, i + 1);
    && 1 <= n <= MaxDigits
    && i + 1 + n < |s| && s[i + 1 + n] == '.'
  }

  /** The scanner's test at `i` succeeds exactly when the pattern matches
      some text starting at `i`. */
  lemma MatchesAtIff(s: string, i: nat)
    ensures MatchesAt(s, i) ==> TokenAt(s, i, i + 2 + RunLength(s, i + 1))
    ensures !MatchesAt(s, i) ==> forall j :: !TokenAt(s, i, j)
  {
  }

  /** Scan for the leftmost match starting at or after `from`. */
  function Scan(s: string, from: nat): (r: Option<Frame>)
    requires from <= |s|
    ensures r.None? ==> NoTokenIn(s, from, |s|)
    ensures r.Some? ==> from <= r.value.start && TokenAt(s, r.value.start, r.value.end)
    ensures r.Some? ==> r.value.value == TokenValue(s, r.value.start, r.value.end)
    ensures r.Some? ==> NoTokenIn(s, from, r.value.start)
    decreases |s| - from
  {
    if from == |s| then
      None
    else if MatchesAt(s, from) then
      var n := RunLength(s, from + 1);
      MatchesAtIff(s, from);
      Some(Frame(TokenValue(s, from, from + 2 + n), from, from + 2 + n))
    else
      MatchesAtIff(s, from);
      Scan(s, from + 1)
  }

  /** `_getFrameNumber(path)`: `None` when the pattern occurs nowhere in the
      path; otherwise the leftmost occurrence, whose value is the decimal
      value of the digits between its two dots. */
  function FindFrame(path: string): (r: Option<Frame>)
    ensures r.None? <==> NoTokenIn(path, 0, |path|)
    ensures r.Some? ==> TokenAt(path, r.value.start, r.value.end)
    ensures r.Some? ==> r.value.value == TokenValue(path, r.value.start, r.value.end)
    ensures r.Some? ==> NoTokenIn(path, 0, r.value.start)
  {
    Scan(path, 0)
  }

  /** A match's span starts and ends on a dot and is two longer than its run
      of one to `MaxDigits` digits. */
  lemma FrameShape(path: string)
    requires FindFrame(path).Some?
    ensures var f := FindFrame(path).value;
      && path[f.start] == '.' && path[f.end - 1] == '.'
      && 1 <= f.end - f.start - 2 <= MaxDigits
      && f.end - f.start - 2 == RunLength(path, f.start + 1)
  {
  }

  /** Only a dot followed by more than `MaxDigits` digits: there is no match
      at that dot. */
  lemma LongRunNoMatch(s: string, i: nat)
    requires i + MaxDigits + 2 <= |s| && s[i] == '.'
    requires forall k :: i < k < i + MaxDigits + 2 ==> IsDigit(s[k])
    ensures forall j :: !TokenAt(s, i, j)
  {
  }

  /** A dot, `n` zeros and a dot: a frame token exactly when `1 <= n <= 100`,
      so one hundred digits are matched and one hundred and one are not. */
  lemma DigitCountBoundary(n: nat)
    ensures var s := "." + seq(n, _ => '0') + ".";
      FindFrame(s).Some? <==> 1 <= n <= MaxDigits
  {
    var s := "." + seq(n, _ => '0') + ".";
    assert forall k :: 1 <= k <= n ==> s[k] == '0';
    if 1 <= n <= MaxDigits {
      assert TokenAt(s, 0, n + 2);
    } else {
      forall i, j | TokenAt(s, i, j)
        ensures false
      {
      }
    }
  }
}
