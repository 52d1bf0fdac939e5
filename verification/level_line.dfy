/** The session-log line written when the player picks an expedition,
    recognised as `SelectActiveExpedition.*(Local_\d+,\d,\d)`: the leftmost
    occurrence of the marker that is followed, on the same line, by a
    `Local_` token, and of those tokens the last one (the `.*` is greedy). */
module LevelLine {
  import opened Base
  import opened Text

  const Marker: string := "SelectActiveExpedition"
  const LocalPrefix: string := "Local_"

  /** `Local_\d+,\d,\d` as a whole. */
  predicate IsLocalToken(t: string) {
    && |t| >= |LocalPrefix| + 5
    && t[..|LocalPrefix|] == LocalPrefix
    && AllDigits(t[|LocalPrefix|..|t| - 4])
    && t[|t| - 4] == ',' && IsAsciiDigit(t[|t| - 3])
    && t[|t| - 2] == ',' && IsAsciiDigit(t[|t| - 1])
  }

  /** Every character in `[a, b)` is an ASCII digit. */
  predicate DigitsBetween(line: string, a: nat, b: nat)
    requires a <= b <= |line|
  {
    forall q :: a <= q < b ==> IsAsciiDigit(line[q])
  }

  /** A token of length `n` starts at index `j` of `line`: `IsLocalToken`
      read off the line in place (see `TokenAtIff`). */
  predicate TokenAt(line: string, j: nat, n: nat) {
    && j + n <= |line| && n >= |LocalPrefix| + 5
    && OccursAt(line, LocalPrefix, j)
    && DigitsBetween(line, j + |LocalPrefix|, j + n - 4)
    && line[j + n - 4] == ',' && IsAsciiDigit(line[j + n - 3])
    && line[j + n - 2] == ',' && IsAsciiDigit(line[j + n - 1])
  }

  /** The in-place reading agrees with the token as a string. */
  lemma TokenAtIff(line: string, j: nat, n: nat)
    requires j + n <= |line|
    ensures TokenAt(line, j, n) <==> IsLocalToken(line[j..j + n])
  {
    var t := line[j..j + n];
    if n >= |LocalPrefix| + 5 {
      assert t[..|LocalPrefix|] == line[j..j + |LocalPrefix|];
      var digits := t[|LocalPrefix|..n - 4];
      assert forall q :: 0 <= q < |digits| ==> digits[q] == line[j + |LocalPrefix| + q];
      assert DigitsBetween(line, j + |LocalPrefix|, j + n - 4) <==> AllDigits(digits) by {
        if AllDigits(digits) {
          forall q | j + |LocalPrefix| <= q < j + n - 4
            ensures IsAsciiDigit(line[q])
          {
            assert digits[q - j - |LocalPrefix|] == line[q];
          }
        }
      }
    }
  }

  /** No line feed in `[a, b)`: `.` can cover it. */
  predicate NoLineFeed(line: string, a: nat, b: nat)
    requires a <= b <= |line|
  {
    forall q :: a <= q < b ==> line[q] != '\n'
  }

  /** The pattern matches from index `i`, its `.*` reaching index `j`, where
      a token of length `n` is captured. `.` does not match a line feed. */
  predicate MatchAt(line: string, i: nat, j: nat, n: nat) {
    && OccursAt(line, Marker, i)
    && i + |Marker| <= j <= |line|
    && NoLineFeed(line, i + |Marker|, j)
    && TokenAt(line, j, n)
  }

  /** Some match of the pattern starts at index `i`. */
  ghost predicate StartsMatch(line: string, i: nat) {
    exists j: nat, n: nat :: MatchAt(line, i, j, n)
  }

  /** The end of the run of ASCII digits that starts at index `k`. */
  function DigitsEnd(line: string, k: nat): (e: nat)
    requires k <= |line|
    ensures k <= e <= |line| && DigitsBetween(line, k, e)
    ensures e < |line| ==> !IsAsciiDigit(line[e])
    decreases |line| - k
  {
    if k < |line| && IsAsciiDigit(line[k]) then DigitsEnd(line, k + 1) else k
  }

  /** A digit run ended by a non-digit is the run `DigitsEnd` finds. */
  lemma {:induction false} DigitsEndAt(line: string, k: nat, m: nat)
    requires k <= m < |line| && DigitsBetween(line, k, m) && !IsAsciiDigit(line[m])
    ensures DigitsEnd(line, k) == m
    decreases m - k
  {
    if k < m {
      DigitsEndAt(line, k + 1, m);
    }
  }

  /** The length of the token at `j`, if there is one: the greedy `\d+`
      takes the whole digit run, which must be followed by `,d,d`. */
  function TokenLen(line: string, j: nat): (r: Option<nat>)
    requires j <= |line|
    ensures r.Some? ==> TokenAt(line, j, r.value)
  {
    if !OccursAt(line, LocalPrefix, j) then None
    else
      var p := DigitsEnd(line, j + |LocalPrefix|);
      if p > j + |LocalPrefix| && p + 4 <= |line| && line[p] == ',' && IsAsciiDigit(line[p + 1])
         && line[p + 2] == ',' && IsAsciiDigit(line[p + 3])
      then Some(p + 4 - j)
      else None
  }

  /** Every token at `j` is the one `TokenLen` reports, so the length of a
      token is fixed by where it starts. */
  lemma TokenLenComplete(line: string, j: nat, n: nat)
    requires TokenAt(line, j, n)
    ensures TokenLen(line, j) == Some(n)
  {
    DigitsEndAt(line, j + |LocalPrefix|, j + n - 4);
  }

  /** A token starts at `j`. */
  predicate HasToken(line: string, j: nat) {
    j <= |line| && TokenLen(line, j).Some?
  }

  /** `HasToken` as a test on indices, for the search. */
  function TokenStarts(line: string): nat -> bool {
    (j: nat) => HasToken(line, j)
  }

  /** The end of the text `.` can cover from `k`: the first line feed at or
      after `k`, or the end of the line. */
  function WindowEnd(line: string, k: nat): (e: nat)
    requires k <= |line|
    ensures k <= e <= |line| && NoLineFeed(line, k, e)
    ensures e < |line| ==> line[e] == '\n'
    decreases |line| - k
  {
    if k < |line| && line[k] != '\n' then WindowEnd(line, k + 1) else k
  }

  /** The text `.` can cover from `k` ends exactly at `WindowEnd`. */
  lemma WindowIff(line: string, k: nat, j: nat)
    requires k <= j <= |line|
    ensures NoLineFeed(line, k, j) <==> j <= WindowEnd(line, k)
  {
  }

  /** A token can start only where `TokenLen` finds one. */
  lemma TokenHasToken(line: string, j: nat, n: nat)
    ensures TokenAt(line, j, n) ==> HasToken(line, j)
  {
    if TokenAt(line, j, n) {
      TokenLenComplete(line, j, n);
    }
  }

  /** No token lies between `lo` and the next line feed after `k`. */
  lemma NoTokenInWindow(line: string, k: nat, lo: nat)
    requires k <= |line| && k <= lo <= WindowEnd(line, k)
    requires forall j: nat :: lo <= j < WindowEnd(line, k) ==> !TokenStarts(line)(j)
    ensures forall j: nat, n: nat :: lo <= j <= |line| && NoLineFeed(line, k, j) ==> !TokenAt(line, j, n)
  {
    var e := WindowEnd(line, k);
    forall j: nat, n: nat | lo <= j <= |line| && NoLineFeed(line, k, j)
      ensures !TokenAt(line, j, n)
    {
      WindowIff(line, k, j);
      TokenHasToken(line, j, n);
      if j < e {
        assert !TokenStarts(line)(j);
      }
    }
  }

  /** Where the greedy `.*` after a marker ending at `k` stops: the last
      token that can be reached from `k` without crossing a line feed. */
  function LastTokenAfter(line: string, k: nat): (r: Option<nat>)
    requires k <= |line|
    ensures r.Some? ==> k <= r.value <= |line| && NoLineFeed(line, k, r.value) && HasToken(line, r.value)
    ensures r.Some? ==> forall j: nat, n: nat :: r.value < j <= |line| && NoLineFeed(line, k, j) ==> !TokenAt(line, j, n)
    ensures r.None? ==> forall j: nat, n: nat :: k <= j <= |line| && NoLineFeed(line, k, j) ==> !TokenAt(line, j, n)
  {
    var e := WindowEnd(line, k);
    var r := LastWhere(TokenStarts(line), k, e);
    if r.Some? then
      assert TokenStarts(line)(r.value);
      NoTokenInWindow(line, k, r.value + 1);
      r
    else
      NoTokenInWindow(line, k, k);
      r
  }

  /** A marker at `i` with a token reachable after it. */
  predicate HasMatchAt(line: string, i: nat) {
    && OccursAt(line, Marker, i)
    && LastTokenAfter(line, i + |Marker|).Some?
  }

  /** The scanner's test at `i` is exactly "some match starts at `i`". */
  lemma HasMatchAtIff(line: string, i: nat)
    ensures HasMatchAt(line, i) <==> StartsMatch(line, i)
  {
    if HasMatchAt(line, i) {
      var j := LastTokenAfter(line, i + |Marker|).value;
      assert MatchAt(line, i, j, TokenLen(line, j).value);
    }
  }

  /** No match starts before `i`. */
  ghost predicate Leftmost(line: string, i: nat) {
    forall i': nat :: i' < i ==> !StartsMatch(line, i')
  }

  /** Of the matches starting at `i`, the one whose `.*` reaches `j` has the
      longest `.*`. */
  ghost predicate Greediest(line: string, i: nat, j: nat) {
    forall j': nat, n': nat :: MatchAt(line, i, j', n') ==> j' <= j
  }

  /** Where the leftmost match starts, if any. */
  function FirstMatchStart(line: string): (r: Option<nat>)
    ensures r.Some? ==> r.value <= |line| && HasMatchAt(line, r.value) && Leftmost(line, r.value)
    ensures r.None? <==> forall i: nat :: i <= |line| ==> !StartsMatch(line, i)
  {
    var r := FirstMatchFrom(line, 0);
    if r.Some? then HasMatchAtIff(line, r.value); r else r
  }

  /** The first index from `lo` on where a match starts. */
  function FirstMatchFrom(line: string, lo: nat): (r: Option<nat>)
    requires lo <= |line| + 1
    ensures r.Some? ==> lo <= r.value <= |line| && HasMatchAt(line, r.value)
    ensures r.Some? ==> forall i: nat :: lo <= i < r.value ==> !StartsMatch(line, i)
    ensures r.None? ==> forall i: nat :: lo <= i <= |line| ==> !StartsMatch(line, i)
    decreases |line| + 1 - lo
  {
    if lo == |line| + 1 then None
    else
      HasMatchAtIff(line, lo);
      if HasMatchAt(line, lo) then Some(lo) else FirstMatchFrom(line, lo + 1)
  }

  /** The token `LastTokenAfter` finds after the marker at `i` belongs to
      the greediest match starting at `i`. */
  lemma GreediestAt(line: string, i: nat)
    requires i <= |line| && HasMatchAt(line, i)
    ensures var j := LastTokenAfter(line, i + |Marker|).value;
            MatchAt(line, i, j, TokenLen(line, j).value) && Greediest(line, i, j)
  {
  }

  /** `t` is the token of a match that starts leftmost and, of the matches
      starting there, has the longest `.*`: what the regex captures. */
  ghost predicate CapturedBy(line: string, t: string) {
    exists i: nat, j: nat ::
      && MatchAt(line, i, j, |t|) && t == line[j..j + |t|]
      && Leftmost(line, i) && Greediest(line, i, j)
  }

  /** The token of the greediest match starting at `i`. */
  function TokenOfMatch(line: string, i: nat): string
    requires i <= |line| && HasMatchAt(line, i)
  {
    var j := LastTokenAfter(line, i + |Marker|).value;
    line[j..j + TokenLen(line, j).value]
  }

  /** The token of the leftmost match is the one the regex captures. */
  lemma LeftmostCaptured(line: string, i: nat)
    requires FirstMatchStart(line) == Some(i)
    ensures CapturedBy(line, TokenOfMatch(line, i))
  {
    GreediestAt(line, i);
    var j := LastTokenAfter(line, i + |Marker|).value;
    var n := TokenLen(line, j).value;
    var t := TokenOfMatch(line, i);
    assert t == line[j..j + n] && |t| == n;
  }

  /** Group 1 of `LEVEL_CHANGE_REGEX.captures(line)`: present exactly when
      some match exists, and then the token `CapturedBy` describes. */
  function Capture(line: string): (r: Option<string>)
    ensures r.None? <==> forall i: nat :: i <= |line| ==> !StartsMatch(line, i)
    ensures r.Some? ==> CapturedBy(line, r.value)
  {
    match FirstMatchStart(line)
    case None => None
    case Some(i) =>
      LeftmostCaptured(line, i);
      Some(TokenOfMatch(line, i))
  }
}
