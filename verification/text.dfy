/** The string primitives of Rust's `str` that the tracker relies on, over
    `string` = `seq<char>` (one `char` per Unicode scalar value):
    `trim`/`trim_start`, `starts_with`, `contains`, `split(char)`,
    `to_ascii_lowercase`, `parse::<u32>` and decimal formatting. */
module Text {
  import opened Base

  /** `char::is_whitespace`: the Unicode White_Space property. The `regex`
      crate's Unicode `\s` is the same set. */
  predicate IsWhitespace(c: char) {
    var n := c as int;
    || (0x09 <= n <= 0x0D) || n == 0x20 || n == 0x85 || n == 0xA0 || n == 0x1680
    || (0x2000 <= n <= 0x200A) || n == 0x2028 || n == 0x2029 || n == 0x202F
    || n == 0x205F || n == 0x3000
  }

  predicate AllWhitespace(s: string) {
    forall i :: 0 <= i < |s| ==> IsWhitespace(s[i])
  }

  predicate IsAsciiDigit(c: char) {
    '0' <= c <= '9'
  }

  predicate AllDigits(s: string) {
    forall i :: 0 <= i < |s| ==> IsAsciiDigit(s[i])
  }

  /** `str::trim_start`: drops the leading whitespace. The contract pins the
      result down uniquely: a suffix of `s`, everything cut off is whitespace,
      and what remains does not start with whitespace. */
  function TrimStart(s: string): (r: string)
    ensures |r| <= |s| && r == s[|s| - |r|..]
    ensures AllWhitespace(s[..|s| - |r|])
    ensures r == [] || !IsWhitespace(r[0])
  {
    if |s| > 0 && IsWhitespace(s[0]) then
      var r := TrimStart(s[1..]);
      TrimStartStep(s, s[1..], r);
      r
    else
      NothingCut(s);
      s
  }

  /** Keeping all of `s` cuts off nothing, and nothing is all whitespace. */
  lemma NothingCut(s: string)
    ensures s == s[|s| - |s|..] && AllWhitespace(s[..|s| - |s|])
  {
  }

  /** Whitespace in front of a trimmed tail is cut off too. */
  lemma TrimStartStep(s: string, tail: string, r: string)
    requires |s| > 0 && IsWhitespace(s[0]) && tail == s[1..]
    requires |r| <= |tail| && r == tail[|tail| - |r|..] && AllWhitespace(tail[..|tail| - |r|])
    ensures r == s[|s| - |r|..] && AllWhitespace(s[..|s| - |r|])
  {
    assert s[..|s| - |r|] == [s[0]] + tail[..|tail| - |r|];
    assert tail[|tail| - |r|..] == s[|s| - |r|..];
  }

  /** `str::trim_end`: drops the trailing whitespace. */
  function TrimEnd(s: string): (r: string)
    ensures |r| <= |s| && r == s[..|r|]
    ensures AllWhitespace(s[|r|..])
    ensures r == [] || !IsWhitespace(r[|r| - 1])
  {
    if |s| > 0 && IsWhitespace(s[|s| - 1]) then
      var r := TrimEnd(s[..|s| - 1]);
      TrimEndStep(s, s[..|s| - 1], r);
      r
    else
      s
  }

  /** Whitespace after a trimmed head is cut off too. */
  lemma TrimEndStep(s: string, init: string, r: string)
    requires |s| > 0 && IsWhitespace(s[|s| - 1]) && init == s[..|s| - 1]
    requires |r| <= |init| && r == init[..|r|] && AllWhitespace(init[|r|..])
    ensures r == s[..|r|] && AllWhitespace(s[|r|..])
  {
    assert s[|r|..] == init[|r|..] + [s[|s| - 1]];
    assert init[..|r|] == s[..|r|];
  }

  /** `str::trim`: whitespace removed from both ends. */
  function Trim(s: string): string {
    TrimEnd(TrimStart(s))
  }

  /** Trimming recovers any text that neither starts nor ends with whitespace
      from between arbitrary whitespace padding. */
  lemma TrimPadded(pre: string, core: string, post: string)
    requires AllWhitespace(pre) && AllWhitespace(post)
    requires core == [] || (!IsWhitespace(core[0]) && !IsWhitespace(core[|core| - 1]))
    ensures Trim(pre + core + post) == core
  {
    if core == [] {
      assert pre + core + post == (pre + post) + [];
      TrimStartPadded(pre + post, []);
      assert TrimEnd([]) == [];
    } else {
      assert pre + core + post == pre + (core + post);
      TrimStartPadded(pre, core + post);
      TrimEndPadded(core, post);
    }
  }

  lemma {:induction false} TrimStartPadded(pre: string, rest: string)
    requires AllWhitespace(pre)
    requires rest == [] || !IsWhitespace(rest[0])
    ensures TrimStart(pre + rest) == rest
  {
    if |pre| > 0 {
      assert (pre + rest)[1..] == pre[1..] + rest;
      TrimStartPadded(pre[1..], rest);
    } else {
      assert pre + rest == rest;
    }
  }

  lemma {:induction false} TrimEndPadded(rest: string, post: string)
    requires AllWhitespace(post)
    requires rest == [] || !IsWhitespace(rest[|rest| - 1])
    ensures TrimEnd(rest + post) == rest
  {
    if |post| > 0 {
      assert (rest + post)[..|rest + post| - 1] == rest + post[..|post| - 1];
      TrimEndPadded(rest, post[..|post| - 1]);
    } else {
      assert rest + post == rest;
    }
  }

  predicate StartsWith(s: string, prefix: string) {
    |prefix| <= |s| && s[..|prefix|] == prefix
  }

  predicate EndsWith(s: string, suffix: string) {
    |suffix| <= |s| && s[|s| - |suffix|..] == suffix
  }

  /** `needle` occurs in `haystack` starting at index `i`. */
  predicate OccursAt(haystack: string, needle: string, i: nat) {
    i + |needle| <= |haystack| && haystack[i..i + |needle|] == needle
  }

  /** `str::contains(&str)`; the empty needle occurs everywhere. */
  predicate Contains(haystack: string, needle: string) {
    exists i :: 0 <= i <= |haystack| && OccursAt(haystack, needle, i)
  }

  /** Index of the first occurrence of `c`. */
  function IndexOf(s: string, c: char): (r: Option<nat>)
    ensures r.Some? ==> r.value < |s| && s[r.value] == c && c !in s[..r.value]
    ensures r.None? <==> c !in s
  {
    if |s| == 0 then None
    else if s[0] == c then Some(0)
    else
      var r := IndexOf(s[1..], c);
      assert r.Some? ==> s[..r.value + 1] == [s[0]] + s[1..][..r.value];
      if r.None? then None else Some(r.value + 1)
  }

  /** The parts laid end to end with `glue` between neighbours. */
  function Join(parts: seq<string>, glue: string): string {
    if |parts| == 0 then []
    else if |parts| == 1 then parts[0]
    else parts[0] + glue + Join(parts[1..], glue)
  }

  /** `str::split(char)`: never empty, and the parts glued back with the
      separator give the input again. */
  function Split(s: string, sep: char): (parts: seq<string>)
    ensures |parts| >= 1
    ensures forall k :: 0 <= k < |parts| ==> sep !in parts[k]
    ensures Join(parts, [sep]) == s
    decreases |s|
  {
    match IndexOf(s, sep)
    case None => [s]
    case Some(i) =>
      var rest := Split(s[i + 1..], sep);
      var parts := [s[..i]] + rest;
      assert parts[1..] == rest;
      assert s == s[..i] + [sep] + s[i + 1..];
      parts
  }

  /** Splitting undoes joining, so `Split` yields exactly the segments
      between separators. */
  lemma {:induction false} SplitJoin(parts: seq<string>, sep: char)
    requires |parts| >= 1
    requires forall k :: 0 <= k < |parts| ==> sep !in parts[k]
    ensures Split(Join(parts, [sep]), sep) == parts
  {
    if |parts| == 1 {
      assert IndexOf(parts[0], sep).None?;
    } else {
      var rest := Join(parts[1..], [sep]);
      assert Join(parts, [sep]) == parts[0] + [sep] + rest;
      SplitCons(parts[0], sep, rest);
      SplitJoin(parts[1..], sep);
      assert [parts[0]] + parts[1..] == parts;
    }
  }

  /** Text up to the first separator is the first segment. */
  lemma SplitCons(a: string, sep: char, b: string)
    requires sep !in a
    ensures Split(a + [sep] + b, sep) == [a] + Split(b, sep)
  {
    var s := a + [sep] + b;
    IndexOfAfterFree(a, sep, b);
    assert s[..|a|] == a;
    assert s[|a| + 1..] == b;
  }

  /** In `a + [c] + b` with `c` absent from `a`, the first `c` is the one
      right after `a`. */
  lemma IndexOfAfterFree(a: string, c: char, b: string)
    requires c !in a
    ensures IndexOf(a + [c] + b, c) == Some(|a|)
  {
    var s := a + [c] + b;
    var r := IndexOf(s, c);
    assert s[|a|] == c;
    assert r.Some?;
  }

  /** Every character of a join comes from a part or from the glue. */
  lemma {:induction false} JoinChars(parts: seq<string>, glue: string, c: char)
    requires c in Join(parts, glue)
    ensures c in glue || exists k :: 0 <= k < |parts| && c in parts[k]
  {
    if |parts| > 1 {
      var rest := Join(parts[1..], glue);
      assert Join(parts, glue) == parts[0] + glue + rest;
      if c in rest {
        JoinChars(parts[1..], glue, c);
        if c !in glue {
          var k :| 0 <= k < |parts| - 1 && c in parts[1..][k];
          assert parts[1..][k] == parts[k + 1];
        }
      }
    }
  }

  /** Number of occurrences of `c`. */
  function CountOf(s: string, c: char): nat {
    if |s| == 0 then 0 else (if s[0] == c then 1 else 0) + CountOf(s[1..], c)
  }

  /** `split` yields one more segment than there are separators. */
  lemma {:induction false} SplitCount(s: string, sep: char)
    ensures |Split(s, sep)| == CountOf(s, sep) + 1
    decreases |s|
  {
    match IndexOf(s, sep)
    case None =>
      CountAbsent(s, sep);
    case Some(i) =>
      SplitCount(s[i + 1..], sep);
      CountAbsent(s[..i], sep);
      CountConcat(s[..i], [sep] + s[i + 1..], sep);
      CountConcat([sep], s[i + 1..], sep);
      assert s == s[..i] + ([sep] + s[i + 1..]);
  }

  lemma {:induction false} CountAbsent(s: string, c: char)
    requires c !in s
    ensures CountOf(s, c) == 0
  {
    if |s| > 0 {
      assert s[0] != c;
      assert c !in s[1..];
      CountAbsent(s[1..], c);
    }
  }

  lemma {:induction false} CountConcat(a: string, b: string, c: char)
    ensures CountOf(a + b, c) == CountOf(a, c) + CountOf(b, c)
  {
    if |a| > 0 {
      assert (a + b)[1..] == a[1..] + b;
      CountConcat(a[1..], b, c);
    } else {
      assert a + b == b;
    }
  }

  /** `char::to_ascii_lowercase`. */
  function AsciiLower(c: char): char {
    if 'A' <= c <= 'Z' then (c as int + 32) as char else c
  }

  /** `str::to_ascii_lowercase`: only `A`-`Z` change. */
  function ToAsciiLowercase(s: string): (r: string)
    ensures |r| == |s|
    ensures forall i :: 0 <= i < |s| ==> r[i] == AsciiLower(s[i])
  {
    if |s| == 0 then [] else [AsciiLower(s[0])] + ToAsciiLowercase(s[1..])
  }

  function DigitValue(c: char): nat
    requires IsAsciiDigit(c)
  {
    c as int - '0' as int
  }

  function DigitChar(d: nat): (c: char)
    requires d < 10
    ensures IsAsciiDigit(c) && DigitValue(c) == d
  {
    ('0' as int + d) as char
  }

  /** The value of a string of decimal digits, most significant first. */
  function DigitsValue(s: string): nat
    requires AllDigits(s)
  {
    if |s| == 0 then 0 else DigitsValue(s[..|s| - 1]) * 10 + DigitValue(s[|s| - 1])
  }

  /** Canonical decimal text of `n` (Rust's `Display` for unsigned integers):
      digits only, no leading zero, and reading it back gives `n`. */
  function Decimal(n: nat): (r: string)
    ensures |r| >= 1 && AllDigits(r)
    ensures DigitsValue(r) == n
    ensures r[0] == '0' ==> n == 0 && |r| == 1
  {
    if n < 10 then [DigitChar(n)]
    else
      var r := Decimal(n / 10) + [DigitChar(n % 10)];
      assert r[..|r| - 1] == Decimal(n / 10);
      r
  }

  /** `str::parse::<u32>`: an optional `+`, then one or more ASCII digits
      whose value fits in 32 bits. Anything else (a sign `-`, a blank, an
      empty string, a lone `+`, an overflow) is an error. */
  function ParseU32(s: string): (r: Option<u32>)
    ensures r.Some? ==> |s| > 0 && s != "+"
    ensures r.Some? ==> forall i :: 0 <= i < |s| ==> IsAsciiDigit(s[i]) || (i == 0 && s[i] == '+')
  {
    var digits := if |s| > 0 && s[0] == '+' then s[1..] else s;
    if |digits| > 0 && AllDigits(digits) && DigitsValue(digits) <= U32_MAX then
      Some(DigitsValue(digits))
    else
      None
  }

  /** Reading back the decimal text of a 32-bit value gives the value. */
  lemma ParseDecimal(n: nat)
    requires n <= U32_MAX
    ensures ParseU32(Decimal(n)) == Some(n)
  {
  }

  /** A string that is all digits parses exactly when its value fits. */
  lemma ParseDigits(s: string)
    requires |s| > 0 && AllDigits(s)
    ensures ParseU32(s).Some? <==> DigitsValue(s) <= U32_MAX
    ensures ParseU32(s).Some? ==> ParseU32(s).value == DigitsValue(s)
  {
  }

  /** Text that neither starts nor ends with whitespace is left alone by
      trimming. */
  lemma TrimUnpadded(core: string)
    requires core == [] || (!IsWhitespace(core[0]) && !IsWhitespace(core[|core| - 1]))
    ensures Trim(core) == core
  {
    assert [] + core + [] == core;
    TrimPadded([], core, []);
  }

  /** A segment that is a digit run after its leading whitespace reads as
      that run. */
  lemma SegmentIdOfDigits(seg: string, d: string)
    requires d == TrimStart(seg) && |d| > 0 && AllDigits(d)
    ensures SegmentId(seg) == ParseU32(d)
  {
    assert IsAsciiDigit(d[0]) && IsAsciiDigit(d[|d| - 1]);
    TrimUnpadded(d);
  }

  /** A character other than a digit, or than a `+` in front, makes the
      text fail to parse. */
  lemma NotU32(s: string, i: nat)
    requires i < |s| && !IsAsciiDigit(s[i]) && (i > 0 || s[i] != '+')
    ensures ParseU32(s).None?
  {
  }

  /** Index of the last occurrence of `c`. */
  function LastIndexOf(s: string, c: char): (r: Option<nat>)
    ensures r.Some? ==> r.value < |s| && s[r.value] == c && c !in s[r.value + 1..]
    ensures r.None? <==> c !in s
  {
    if |s| == 0 then None
    else if s[|s| - 1] == c then Some(|s| - 1)
    else
      var r := LastIndexOf(s[..|s| - 1], c);
      assert r.Some? ==> s[r.value + 1..] == s[..|s| - 1][r.value + 1..] + [s[|s| - 1]];
      assert r.None? ==> s == s[..|s| - 1] + [s[|s| - 1]];
      r
  }

  /** The length of the run of ASCII digits that ends `s`. */
  function TrailingDigits(s: string): (n: nat)
    ensures n <= |s| && AllDigits(s[|s| - n..])
    ensures n < |s| ==> !IsAsciiDigit(s[|s| - n - 1])
  {
    if |s| > 0 && IsAsciiDigit(s[|s| - 1]) then
      var n := TrailingDigits(s[..|s| - 1]);
      TrailingDigitsStep(s, s[..|s| - 1], n);
      n + 1
    else
      0
  }

  /** A digit after a run of `n` trailing digits makes a run of `n + 1`. */
  lemma TrailingDigitsStep(s: string, init: string, n: nat)
    requires |s| > 0 && init == s[..|s| - 1] && IsAsciiDigit(s[|s| - 1])
    requires n <= |init| && AllDigits(init[|init| - n..])
    requires n < |init| ==> !IsAsciiDigit(init[|init| - n - 1])
    ensures AllDigits(s[|s| - n - 1..])
    ensures n + 1 < |s| ==> !IsAsciiDigit(s[|s| - n - 2])
  {
    assert s[|s| - n - 1..] == init[|init| - n..] + [s[|s| - 1]];
    if n + 1 < |s| {
      assert s[|s| - n - 2] == init[|init| - n - 1];
    }
  }

  /** Digits appended after a non-digit are exactly the trailing run. */
  lemma {:induction false} TrailingDigitsOf(a: string, d: string)
    requires AllDigits(d)
    requires a == [] || !IsAsciiDigit(a[|a| - 1])
    ensures TrailingDigits(a + d) == |d|
    decreases |d|
  {
    if |d| > 0 {
      assert (a + d)[..|a + d| - 1] == a + d[..|d| - 1];
      TrailingDigitsOf(a, d[..|d| - 1]);
    } else {
      assert a + d == a;
    }
  }

  /** One comma segment read as an id: `s.trim().parse::<u32>().ok()`. */
  function SegmentId(seg: string): Option<u32> {
    ParseU32(Trim(seg))
  }

  /** The id list of `parse_ids` and of the summary-line rule: every segment
      trimmed and read as a `u32`, those that fail dropped, order kept. */
  function ParseSegments(segs: seq<string>): (r: seq<u32>)
    ensures |r| <= |segs|
  {
    FilterMap(segs, SegmentId)
  }

  /** An id is in the result exactly when some segment reads as it. */
  lemma ParseSegmentsMember(segs: seq<string>, x: u32)
    ensures x in ParseSegments(segs) <==> exists k :: 0 <= k < |segs| && SegmentId(segs[k]) == Some(x)
  {
    FilterMapMember(segs, SegmentId, x);
  }
}
