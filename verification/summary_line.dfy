/** The summary line the game writes when a session ends, for instance
    `Logs Read: 2 / 3 | IDs: [10, 20]`, recognised as the end-anchored
    pattern `Logs Read: \d+ / \d+ \| IDs: \[(\d+(?:,\s*\d+)*)]\s*$` and its
    captured id list read back as numbers. */
module SummaryLine {
  import opened Base
  import opened Text

  const Head: string := "Logs Read: "
  const Of: string := " / "
  const IdsOpen: string := " | IDs: ["

  /** One list item after a comma: `\s*\d+`. */
  predicate IdToken(seg: string) {
    var d := TrimStart(seg);
    |d| > 0 && AllDigits(d)
  }

  /** The numeric value of a list item. */
  function TokenValue(seg: string): nat
    requires IdToken(seg)
  {
    DigitsValue(TrimStart(seg))
  }

  /** `\d+(?:,\s*\d+)*`: comma-separated items, the first bare digits, the
      others digits after optional whitespace. */
  predicate IsIdList(list: string) {
    var segs := Split(list, ',');
    && |segs[0]| > 0 && AllDigits(segs[0])
    && forall k :: 1 <= k < |segs| ==> IdToken(segs[k])
  }

  /** The pattern matches `line` from index `i` with the given pieces: the
      two counts, the captured id list and the whitespace up to the end. */
  predicate SummaryAt(line: string, i: nat, read: string, total: string, list: string, trailing: string) {
    && |read| > 0 && AllDigits(read)
    && |total| > 0 && AllDigits(total)
    && IsIdList(list)
    && AllWhitespace(trailing)
    && i <= |line|
    && line[i..] == Head + read + Of + total + IdsOpen + list + "]" + trailing
  }

  /** `s` without `suffix` at its end, if it ends with it. */
  function DropSuffix(s: string, suffix: string): (r: Option<string>)
    ensures r.Some? <==> EndsWith(s, suffix)
    ensures r.Some? ==> s == r.value + suffix
  {
    if EndsWith(s, suffix) then
      assert s == s[..|s| - |suffix|] + suffix;
      Some(s[..|s| - |suffix|])
    else None
  }

  /** `s` split before its trailing run of digits, if there is one. */
  function SplitDigits(s: string): (r: Option<(string, string)>)
    ensures r.Some? <==> TrailingDigits(s) > 0
    ensures r.Some? ==> s == r.value.0 + r.value.1 && |r.value.1| == TrailingDigits(s)
  {
    var n := TrailingDigits(s);
    if n == 0 then None
    else
      assert s == s[..|s| - n] + s[|s| - n..];
      Some((s[..|s| - n], s[|s| - n..]))
  }

  /** The pieces of a matching line, in order. */
  datatype Parts = Parts(pre: string, read: string, total: string, list: string, trailing: string)

  /** The end of the match: `line` cut into the text up to and including the
      last `[`, the list, the `]` and the trailing whitespace. */
  function MatchTail(line: string): (r: Option<(string, string, string)>)
    ensures r.Some? ==> line == r.value.0 + r.value.1 + "]" + r.value.2
    ensures r.Some? ==> AllWhitespace(r.value.2) && '[' !in r.value.1
  {
    var t := TrimEnd(line);
    var trailing := line[|t|..];
    match DropSuffix(t, "]")
    case None => None
    case Some(body) =>
      match LastIndexOf(body, '[')
      case None => None
      case Some(o) =>
        var list := body[o + 1..];
        assert body == body[..o + 1] + list;
        Some((body[..o + 1], list, trailing))
  }

  /** The start of the match: the fixed text and the two counts, ending with
      ` | IDs: [`. */
  function MatchFront(x: string): (r: Option<(string, string, string)>)
    ensures r.Some? ==> x == r.value.0 + Head + r.value.1 + Of + r.value.2 + IdsOpen
    ensures r.Some? ==> |r.value.1| > 0 && AllDigits(r.value.1) && |r.value.2| > 0 && AllDigits(r.value.2)
  {
    match DropSuffix(x, IdsOpen)
    case None => None
    case Some(y) =>
      match SplitDigits(y)
      case None => None
      case Some((z, total)) =>
        match DropSuffix(z, Of)
        case None => None
        case Some(w) =>
          match SplitDigits(w)
          case None => None
          case Some((v, read)) =>
            match DropSuffix(v, Head)
            case None => None
            case Some(pre) => Some((pre, read, total))
  }

  /** Match the pattern against `line`. Because the match must end the line,
      it is read from the end: trailing whitespace, `]`, the list back to the
      last `[`, then the fixed text and the two counts. */
  function MatchLine(line: string): (r: Option<Parts>)
    ensures r.Some? ==> SummaryAt(line, |r.value.pre|, r.value.read, r.value.total, r.value.list, r.value.trailing)
  {
    match MatchTail(line)
    case None => None
    case Some((x, list, trailing)) =>
      match MatchFront(x)
      case None => None
      case Some((pre, read, total)) =>
        if !IsIdList(list) then None
        else
          Reassemble(line, x, list, trailing, pre, read, total);
          Some(Parts(pre, read, total, list, trailing))
  }

  lemma Reassemble(line: string, x: string, list: string, trailing: string, pre: string, read: string, total: string)
    requires line == x + list + "]" + trailing
    requires x == pre + Head + read + Of + total + IdsOpen
    ensures line[|pre|..] == Head + read + Of + total + IdsOpen + list + "]" + trailing
  {
    assert line == pre + (Head + read + Of + total + IdsOpen + list + "]" + trailing);
  }

  /** Group 1 of `PREVIOUSLY_READ_REGEX.captures(line)`: the id list. */
  function Capture(line: string): (r: Option<string>)
    ensures r.Some? ==> exists i, read, total, trailing :: SummaryAt(line, i, read, total, r.value, trailing)
  {
    match MatchLine(line)
    case None => None
    case Some(p) => Some(p.list)
  }

  /** `Regex::captures(..).get(1)` as a list of ids: every item read as a
      `u32`, those too large dropped. A line that does not match gives none. */
  function SummaryIds(line: string): seq<u32> {
    match Capture(line)
    case None => []
    case Some(list) => ParseSegments(Split(list, ','))
  }

  lemma DropSuffixOf(a: string, suffix: string)
    ensures DropSuffix(a + suffix, suffix) == Some(a)
  {
    var r := DropSuffix(a + suffix, suffix);
    assert (a + suffix)[|a|..] == suffix;
    assert r.value == (a + suffix)[..|a|];
  }

  lemma SplitDigitsOf(a: string, d: string)
    requires |d| > 0 && AllDigits(d)
    requires a == [] || !IsAsciiDigit(a[|a| - 1])
    ensures SplitDigits(a + d) == Some((a, d))
  {
    TrailingDigitsOf(a, d);
    var r := SplitDigits(a + d);
    assert r.value.1 == (a + d)[|a|..];
    assert r.value.0 == (a + d)[..|a|];
  }

  /** The last `[` of `x + list` ends `x` when `list` has none. */
  lemma LastBracketOf(x: string, list: string)
    requires |x| > 0 && x[|x| - 1] == '[' && '[' !in list
    ensures LastIndexOf(x + list, '[') == Some(|x| - 1)
  {
    var s := x + list;
    assert s[|x| - 1] == '[';
    assert s[|x|..] == list;
  }

  /** `MatchTail` finds the pieces of any line laid out as `x[list]` plus
      whitespace, with `x` ending in `[` and no `[` in the list. */
  lemma MatchTailOf(x: string, list: string, trailing: string)
    requires |x| > 0 && x[|x| - 1] == '[' && '[' !in list && AllWhitespace(trailing)
    ensures MatchTail(x + list + "]" + trailing) == Some((x, list, trailing))
  {
    var line := x + list + "]" + trailing;
    var body := x + list;
    var t := body + "]";
    assert line == t + trailing;
    TrimEndPadded(t, trailing);
    assert line[|t|..] == trailing;
    DropSuffixOf(body, "]");
    LastBracketOf(x, list);
    assert body[..|x|] == x && body[|x|..] == list;
  }

  /** `MatchFront` finds the counts of any text laid out as the start of the
      pattern. */
  lemma MatchFrontOf(pre: string, read: string, total: string)
    requires |read| > 0 && AllDigits(read) && |total| > 0 && AllDigits(total)
    ensures MatchFront(pre + Head + read + Of + total + IdsOpen) == Some((pre, read, total))
  {
    var v := pre + Head;
    var w := v + read;
    var z := w + Of;
    var y := z + total;
    DropSuffixOf(y, IdsOpen);
    SplitDigitsOf(z, total);
    DropSuffixOf(w, Of);
    SplitDigitsOf(v, read);
    DropSuffixOf(pre, Head);
  }

  /** How `MatchLine` takes apart a line laid out as the pattern requires,
      whatever the list between the brackets: it finds exactly these pieces,
      and accepts them exactly when the list has the required form. */
  lemma MatchLineSteps(line: string, i: nat, read: string, total: string, list: string, trailing: string)
    requires |read| > 0 && AllDigits(read) && |total| > 0 && AllDigits(total)
    requires AllWhitespace(trailing) && '[' !in list
    requires i <= |line| && line[i..] == Head + read + Of + total + IdsOpen + list + "]" + trailing
    ensures MatchLine(line) == if IsIdList(list) then Some(Parts(line[..i], read, total, list, trailing)) else None
  {
    var pre := line[..i];
    var x := pre + Head + read + Of + total + IdsOpen;
    assert line == pre + line[i..];
    assert line == x + list + "]" + trailing;
    MatchTailOf(x, list, trailing);
    MatchFrontOf(pre, read, total);
  }

  /** Every item of a well-formed list, the first included, is `\s*\d+`. */
  lemma IdListTokens(list: string)
    requires IsIdList(list)
    ensures forall k :: 0 <= k < |Split(list, ',')| ==> IdToken(Split(list, ',')[k])
  {
    var segs := Split(list, ',');
    assert !IsWhitespace(segs[0][0]);
    assert TrimStart(segs[0]) == segs[0];
  }

  /** A list item holds only whitespace and digits. */
  lemma TokenChars(seg: string, c: char)
    requires IdToken(seg) && c in seg
    ensures IsWhitespace(c) || IsAsciiDigit(c)
  {
    var d := TrimStart(seg);
    var n := |seg| - |d|;
    assert seg == seg[..n] + d;
    var j :| 0 <= j < |seg| && seg[j] == c;
    if j < n {
      assert seg[..n][j] == c;
    } else {
      assert d[j - n] == c;
    }
  }

  /** A well-formed list has no `[`, so the last `[` of a line opens it. */
  lemma IdListNoBracket(list: string)
    requires IsIdList(list)
    ensures '[' !in list
  {
    var segs := Split(list, ',');
    IdListTokens(list);
    if '[' in list {
      JoinChars(segs, [','], '[');
      var k :| 0 <= k < |segs| && '[' in segs[k];
      TokenChars(segs[k], '[');
    }
  }

  /** Every line the pattern matches is recognised, with its list captured:
      together with the contract of `Capture`, the pattern matches a line
      exactly when `Capture` reports its list. */
  lemma CaptureComplete(line: string, i: nat, read: string, total: string, list: string, trailing: string)
    requires SummaryAt(line, i, read, total, list, trailing)
    ensures Capture(line) == Some(list)
  {
    IdListNoBracket(list);
    MatchLineSteps(line, i, read, total, list, trailing);
  }

  /** A line laid out like a summary line whose list has an item that is not
      `\s*\d+` (for instance `[10, abc]`) contributes no ids at all: the
      pattern fails as a whole, so even the well-formed items are lost. */
  lemma MalformedListNoIds(line: string, i: nat, read: string, total: string, list: string, trailing: string)
    requires |read| > 0 && AllDigits(read) && |total| > 0 && AllDigits(total)
    requires AllWhitespace(trailing) && '[' !in list && !IsIdList(list)
    requires i <= |line| && line[i..] == Head + read + Of + total + IdsOpen + list + "]" + trailing
    ensures Capture(line).None? && SummaryIds(line) == []
  {
    MatchLineSteps(line, i, read, total, list, trailing);
  }

  /** A list item read as a `u32`: its value, unless that overflows. */
  lemma TokenId(seg: string)
    requires IdToken(seg)
    ensures SegmentId(seg) == if TokenValue(seg) <= U32_MAX then Some(TokenValue(seg)) else None
  {
    SegmentIdOfDigits(seg, TrimStart(seg));
    ParseDigits(TrimStart(seg));
  }

  /** The ids of a summary line are the values of its list items: an id is
      reported exactly when some item has that value (items beyond `u32`
      are dropped, as they can equal no id). */
  lemma SummaryIdsMember(line: string, list: string, x: u32)
    requires Capture(line) == Some(list)
    ensures x in SummaryIds(line) <==>
              exists k :: 0 <= k < |Split(list, ',')| && IdToken(Split(list, ',')[k]) && TokenValue(Split(list, ',')[k]) == x
  {
    FilterMapMember(Split(list, ','), SegmentId, x);
    SegmentsAsTokens(list, x);
  }

  /** On an id list, an item reads as `x` exactly when its digits have
      value `x`. */
  lemma SegmentsAsTokens(list: string, x: u32)
    requires IsIdList(list)
    ensures (exists k :: 0 <= k < |Split(list, ',')| && SegmentId(Split(list, ',')[k]) == Some(x)) <==>
            (exists k :: 0 <= k < |Split(list, ',')| && IdToken(Split(list, ',')[k]) && TokenValue(Split(list, ',')[k]) == x)
  {
    var segs := Split(list, ',');
    IdListTokens(list);
    forall k | 0 <= k < |segs|
      ensures SegmentId(segs[k]) == Some(x) <==> TokenValue(segs[k]) == x
    {
      TokenId(segs[k]);
    }
  }

  /** When no item overflows, the ids are the items' values one for one, in
      list order. */
  lemma SummaryIdsInOrder(line: string, list: string)
    requires Capture(line) == Some(list)
    requires forall k :: 0 <= k < |Split(list, ',')| ==>
               IdToken(Split(list, ',')[k]) && TokenValue(Split(list, ',')[k]) <= U32_MAX
    ensures |SummaryIds(line)| == |Split(list, ',')|
    ensures forall k :: 0 <= k < |Split(list, ',')| ==> SummaryIds(line)[k] == TokenValue(Split(list, ',')[k])
  {
    var segs := Split(list, ',');
    forall k | 0 <= k < |segs|
      ensures SegmentId(segs[k]) == Some(TokenValue(segs[k]))
    {
      TokenId(segs[k]);
    }
    FilterMapAll(segs, SegmentId);
  }
}
