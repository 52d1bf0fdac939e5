/** The in-game terminal name of a story log, as it appears in a session-log
    line: `[A-Z0-9]{3,4}-[A-Z0-9]{3,6}(?:-[A-Z0-9]{3})?`, found by the
    regex engine's leftmost-first search. The pattern is written out here as
    a declarative language (`IsDashCode`) and recognised by a hand-written
    scanner (`LengthAt`, `FirstCodeFrom`) proved to agree with it. */
module DashCode {
  import opened Base

  /** `[A-Z0-9]` */
  predicate IsCodeChar(c: char) {
    'A' <= c <= 'Z' || '0' <= c <= '9'
  }

  predicate AllCodeChars(s: string) {
    forall i :: 0 <= i < |s| ==> IsCodeChar(s[i])
  }

  /** `[A-Z0-9]{3,4}-[A-Z0-9]{3,6}` with the dash at index `a`. */
  predicate TwoPartAt(t: string, a: int) {
    && 3 <= a <= 4 && a < |t|
    && AllCodeChars(t[..a]) && t[a] == '-'
    && 3 <= |t| - a - 1 <= 6 && AllCodeChars(t[a + 1..])
  }

  predicate IsTwoPart(t: string) {
    TwoPartAt(t, 3) || TwoPartAt(t, 4)
  }

  /** `t` as a whole belongs to the language of the pattern. */
  predicate IsDashCode(t: string) {
    || IsTwoPart(t)
    || (|t| >= 4 && IsTwoPart(t[..|t| - 4]) && t[|t| - 4] == '-' && AllCodeChars(t[|t| - 3..]))
  }

  /** Every character of `s` in `[lo, hi)` is a code character. */
  predicate CodeCharsIn(s: string, lo: nat, hi: nat)
    requires lo <= hi <= |s|
  {
    forall j :: lo <= j < hi ==> IsCodeChar(s[j])
  }

  /** `TwoPartAt` read off `s` in place, for the `n` characters from `i`. */
  predicate TwoPartIn(s: string, i: nat, a: nat, n: nat) {
    && 3 <= a <= 4 && a < n && i + n <= |s|
    && CodeCharsIn(s, i, i + a) && s[i + a] == '-'
    && 3 <= n - a - 1 <= 6 && CodeCharsIn(s, i + a + 1, i + n)
  }

  predicate IsTwoPartIn(s: string, i: nat, n: nat) {
    TwoPartIn(s, i, 3, n) || TwoPartIn(s, i, 4, n)
  }

  /** The `n` characters of `s` from index `i` form a code: `IsDashCode`
      read off `s` in place (see `CodeAtIff`). */
  predicate CodeAt(s: string, i: nat, n: nat) {
    && i + n <= |s|
    && (|| IsTwoPartIn(s, i, n)
        || (n >= 4 && IsTwoPartIn(s, i, n - 4) && s[i + n - 4] == '-' && CodeCharsIn(s, i + n - 3, i + n)))
  }

  /** The characters of a slice are the characters of the sequence. */
  lemma CodeCharsSlice(s: string, lo: nat, hi: nat)
    requires lo <= hi <= |s|
    ensures CodeCharsIn(s, lo, hi) <==> AllCodeChars(s[lo..hi])
  {
    assert forall j :: lo <= j < hi ==> s[j] == s[lo..hi][j - lo];
  }

  /** The in-place reading of a two-part code agrees with the slice. */
  lemma TwoPartInIff(s: string, i: nat, a: nat, n: nat)
    requires i + n <= |s|
    ensures TwoPartIn(s, i, a, n) <==> TwoPartAt(s[i..i + n], a)
  {
    var t := s[i..i + n];
    if 3 <= a <= 4 && a < n {
      assert t[..a] == s[i..i + a];
      assert t[a + 1..] == s[i + a + 1..i + n];
      CodeCharsSlice(s, i, i + a);
      CodeCharsSlice(s, i + a + 1, i + n);
    }
  }

  /** The in-place reading of a code agrees with the language of the
      pattern. */
  lemma CodeAtIff(s: string, i: nat, n: nat)
    requires i + n <= |s|
    ensures CodeAt(s, i, n) <==> IsDashCode(s[i..i + n])
  {
    var t := s[i..i + n];
    TwoPartInIff(s, i, 3, n);
    TwoPartInIff(s, i, 4, n);
    if n >= 4 {
      assert t[..n - 4] == s[i..i + n - 4];
      assert t[n - 3..] == s[i + n - 3..i + n];
      TwoPartInIff(s, i, 3, n - 4);
      TwoPartInIff(s, i, 4, n - 4);
      CodeCharsSlice(s, i + n - 3, i + n);
    }
  }

  /** Some code of the pattern's language starts at index `i` of `s`. */
  predicate CodeStartsAt(s: string, i: nat) {
    exists n :: 0 <= n <= |s| - i && CodeAt(s, i, n)
  }

  /** Number of consecutive code characters in `s` from index `k`. */
  function RunFrom(s: string, k: nat): (n: nat)
    requires k <= |s|
    ensures k + n <= |s| && CodeCharsIn(s, k, k + n)
    ensures k + n < |s| ==> !IsCodeChar(s[k + n])
    decreases |s| - k
  {
    if k < |s| && IsCodeChar(s[k]) then 1 + RunFrom(s, k + 1) else 0
  }

  /** The length of the match the regex engine reports when its search
      reaches index `i`, or `None` if no match starts there. The greedy
      quantifiers are tried longest first and the optional group present
      first; for this pattern that yields the longest code starting at `i`. */
  function LengthAt(s: string, i: nat): Option<nat>
    requires i <= |s|
  {
    var a := RunFrom(s, i);
    if (a == 3 || a == 4) && i + a < |s| && s[i + a] == '-' then
      var k := i + a + 1;
      var run := RunFrom(s, k);
      var b := if run > 6 then 6 else run;
      if b < 3 then None
      else
        var p := k + b;
        if p < |s| && s[p] == '-' && RunFrom(s, p + 1) >= 3 then Some(a + 1 + b + 4)
        else Some(a + 1 + b)
    else
      None
  }

  /** What the scanner reports at `i` is a code of the language. */
  lemma LengthAtSound(s: string, i: nat)
    requires i <= |s| && LengthAt(s, i).Some?
    ensures CodeAt(s, i, LengthAt(s, i).value)
  {
    var a := RunFrom(s, i);
    var k := i + a + 1;
    var run := RunFrom(s, k);
    var b := if run > 6 then 6 else run;
    assert TwoPartIn(s, i, a, a + 1 + b);
  }

  /** A run of code characters ended by another character is exactly what
      `RunFrom` counts. */
  lemma {:induction false} RunStops(s: string, k: nat, m: nat)
    requires k + m < |s| && CodeCharsIn(s, k, k + m) && !IsCodeChar(s[k + m])
    ensures RunFrom(s, k) == m
    decreases m
  {
    if m > 0 {
      RunStops(s, k + 1, m - 1);
    }
  }

  lemma {:induction false} RunAtLeast(s: string, k: nat, m: nat)
    requires k + m <= |s| && CodeCharsIn(s, k, k + m)
    ensures RunFrom(s, k) >= m
    decreases m
  {
    if m > 0 {
      RunAtLeast(s, k + 1, m - 1);
    }
  }

  /** What a two-part code at `i` with its dash at `i + a` tells the scanner:
      the first run is exactly `a` long and the second at least `b`. */
  lemma TwoPartRuns(s: string, i: nat, a: nat, b: nat)
    requires TwoPartIn(s, i, a, a + 1 + b)
    ensures RunFrom(s, i) == a && s[i + a] == '-'
    ensures RunFrom(s, i + a + 1) >= b && 3 <= b <= 6
    ensures CodeCharsIn(s, i + a + 1, i + a + 1 + b)
  {
    RunStops(s, i, a);
    RunAtLeast(s, i + a + 1, b);
  }

  /** A two-part code at `i` is found by the scanner, which reports it or
      something longer. */
  lemma LongestTwoPart(s: string, i: nat, n: nat)
    requires IsTwoPartIn(s, i, n)
    ensures LengthAt(s, i).Some? && n <= LengthAt(s, i).value
  {
    var a := if TwoPartIn(s, i, 3, n) then 3 else 4;
    TwoPartRuns(s, i, a, n - a - 1);
  }

  /** The scanner's verdict, in terms of the three runs it measures. */
  lemma LengthAtRuns(s: string, i: nat, a: nat, b: nat)
    requires (a == 3 || a == 4) && 3 <= b <= 6
    requires i + a + 1 + b < |s| && RunFrom(s, i) == a && s[i + a] == '-'
    requires RunFrom(s, i + a + 1) == b && s[i + a + 1 + b] == '-'
    requires RunFrom(s, i + a + 1 + b + 1) >= 3
    ensures LengthAt(s, i) == Some(a + 1 + b + 4)
  {
  }

  /** A code with the optional third part at `i` is reported in full. */
  lemma LongestWithSuffix(s: string, i: nat, n: nat)
    requires 4 <= n && i + n <= |s| && IsTwoPartIn(s, i, n - 4)
    requires s[i + n - 4] == '-' && CodeCharsIn(s, i + n - 3, i + n)
    ensures LengthAt(s, i) == Some(n)
  {
    var a, b := SuffixedRuns(s, i, n);
    LengthAtRuns(s, i, a, b);
  }

  /** The three runs the scanner measures on a code with its third part. */
  lemma SuffixedRuns(s: string, i: nat, n: nat) returns (a: nat, b: nat)
    requires 4 <= n && i + n <= |s| && IsTwoPartIn(s, i, n - 4)
    requires s[i + n - 4] == '-' && CodeCharsIn(s, i + n - 3, i + n)
    ensures (a == 3 || a == 4) && 3 <= b <= 6 && n == a + 1 + b + 4
    ensures i + a + 1 + b < |s| && RunFrom(s, i) == a && s[i + a] == '-'
    ensures RunFrom(s, i + a + 1) == b && s[i + a + 1 + b] == '-'
    ensures RunFrom(s, i + a + 1 + b + 1) >= 3
  {
    var m := n - 4;
    a := if TwoPartIn(s, i, 3, m) then 3 else 4;
    b := m - a - 1;
    var k := i + a + 1;
    TwoPartRuns(s, i, a, b);
    RunStops(s, k, b);
    RunAtLeast(s, k + b + 1, 3);
  }

  /** Any code of the language starting at `i` is found by the scanner, and
      is no longer than what the scanner reports. */
  lemma LengthAtLongest(s: string, i: nat, n: nat)
    requires CodeAt(s, i, n)
    ensures LengthAt(s, i).Some? && n <= LengthAt(s, i).value
  {
    if IsTwoPartIn(s, i, n) {
      LongestTwoPart(s, i, n);
    } else {
      LongestWithSuffix(s, i, n);
    }
  }

  /** Nothing longer than what the scanner reports starts at `i`. */
  lemma NoLongerAt(s: string, i: nat)
    requires i <= |s| && LengthAt(s, i).Some?
    ensures forall m: nat :: CodeAt(s, i, m) ==> m <= LengthAt(s, i).value
  {
    forall m: nat | CodeAt(s, i, m)
      ensures m <= LengthAt(s, i).value
    {
      LengthAtLongest(s, i, m);
    }
  }

  /** The scanner finds a match at `i` exactly when a code starts there. */
  lemma LengthAtComplete(s: string, i: nat)
    requires i <= |s|
    ensures LengthAt(s, i).Some? <==> CodeStartsAt(s, i)
  {
    if LengthAt(s, i).Some? {
      LengthAtSound(s, i);
    }
    if CodeStartsAt(s, i) {
      var n :| 0 <= n <= |s| - i && CodeAt(s, i, n);
      LengthAtLongest(s, i, n);
    }
  }

  /** Where a match was found, and how long it is. */
  datatype Span = Span(start: nat, length: nat)

  /** The regex engine's leftmost search from index `from`. */
  function FirstCodeFrom(s: string, from: nat): (r: Option<Span>)
    requires from <= |s|
    ensures r.Some? ==> from <= r.value.start && CodeAt(s, r.value.start, r.value.length)
    ensures r.Some? ==> forall j :: from <= j < r.value.start ==> !CodeStartsAt(s, j)
    ensures r.Some? ==> forall n: nat :: CodeAt(s, r.value.start, n) ==> n <= r.value.length
    ensures r.None? ==> forall j :: from <= j <= |s| ==> !CodeStartsAt(s, j)
    decreases |s| - from
  {
    LengthAtComplete(s, from);
    match LengthAt(s, from)
    case Some(n) =>
      LengthAtSound(s, from);
      NoLongerAt(s, from);
      Some(Span(from, n))
    case None =>
      if from == |s| then None else FirstCodeFrom(s, from + 1)
  }

  /** `INGAME_READ_REGEX.find(line)`: the text of the leftmost (and, at that
      position, longest) code in the line, or `None` if there is none. */
  function Find(line: string): (r: Option<string>)
    ensures r.Some? ==> IsDashCode(r.value)
    ensures r.Some? ==> exists i :: 0 <= i <= |line| && CodeAt(line, i, |r.value|) && line[i..i + |r.value|] == r.value
                                     && (forall j :: 0 <= j < i ==> !CodeStartsAt(line, j))
                                     && (forall n: nat :: CodeAt(line, i, n) ==> n <= |r.value|)
    ensures r.None? <==> forall j :: 0 <= j <= |line| ==> !CodeStartsAt(line, j)
  {
    match FirstCodeFrom(line, 0)
    case None => None
    case Some(sp) =>
      assert CodeStartsAt(line, sp.start);
      CodeAtIff(line, sp.start, sp.length);
      Some(line[sp.start..sp.start + sp.length])
  }
}
