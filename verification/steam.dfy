/** Finding the Steam library that holds the game (`steam.rs`): a line scan
    of `libraryfolders.vdf` that remembers the last `"path"` entry and
    stops at the first line naming the app. Reading the file and the
    environment are not modelled; the lines are given. */
module Steam {
  import opened Base
  import opened Text

  /** `GTFO_APP_ID`. */
  const GtfoAppId: u32 := 493520

  const Quote: char := '"'

  /** The key that opens a library's path entry: `"path"`. */
  const PathKey: string := [Quote] + "path" + [Quote]

  /** `format!("\"{}", app_id)`: a quote, then the id in decimal. */
  function AppIdPrefix(appId: u32): (r: string)
    ensures |r| >= 2 && r[0] == Quote && IsAsciiDigit(r[1])
  {
    [Quote] + Decimal(appId)
  }

  /** How the loop treats a line: the trimmed line is tested for the path
      key first, then for the app id. The app test is a prefix test, so a
      longer number that starts with the same digits matches too. The id
      is the prefix the scan builds once, `AppIdPrefix(appId)`. */
  datatype LineKind = PathLine | AppLine | OtherLine

  function KindOf(id: string, line: string): LineKind {
    var trimmed := TrimStart(line);
    if StartsWith(trimmed, PathKey) then PathLine
    else if StartsWith(trimmed, id) then AppLine
    else OtherLine
  }

  /** The scan's classifier for one app id prefix. */
  function LineClassifier(id: string): string -> LineKind {
    line => KindOf(id, line)
  }

  /** The kind of every line, in order, for any classifier; the scan uses
      `LineClassifier`. */
  function Kinds(classify: string -> LineKind, lines: seq<string>): (ks: seq<LineKind>)
    ensures |ks| == |lines|
  {
    if |lines| == 0 then [] else [classify(lines[0])] + Kinds(classify, lines[1..])
  }

  lemma {:induction false} KindsAt(classify: string -> LineKind, lines: seq<string>, i: nat)
    requires i < |lines|
    ensures Kinds(classify, lines)[i] == classify(lines[i])
  {
    if i > 0 {
      KindsAt(classify, lines[1..], i - 1);
    }
  }

  /** `splitn(n + 1, c).last()`: the text after the `n`-th `c`, or after
      the last `c` when there are fewer, or all of `s` when there is none.
      `SkipSeparator` gives the separators one at a time. */
  function AfterSeparators(s: string, n: nat, c: char): string
    decreases n
  {
    if n == 0 then s
    else match IndexOf(s, c)
      case None => s
      case Some(i) => AfterSeparators(s[i + 1..], n - 1, c)
  }

  /** What follows the third quote of a path line. */
  function Remainder(line: string): string {
    AfterSeparators(line, 3, Quote)
  }

  /** `PathBuf::from(&s[..s.len() - 1])`: the remainder without its final
      character (the closing quote). Only meaningful for a non-empty
      remainder; the scan requires that of every path line it reads. */
  function PathOf(line: string): string {
    var s := Remainder(line);
    if |s| == 0 then [] else s[..|s| - 1]
  }

  /** `&s[..s.len() - 1]` slices by bytes: it panics on an empty remainder,
      and on one whose last character takes more than one byte in UTF-8,
      since the cut then falls inside that character. A remainder ending in
      an ASCII character loses exactly that character. */
  predicate SliceableRemainder(s: string) {
    |s| > 0 && (s[|s| - 1] as int) < 0x80
  }

  /** The loop would panic on a path line whose remainder it cannot slice:
      every path line the scan reaches, one with no app line before it,
      must have a remainder ending in an ASCII character. */
  predicate PathsReadable(classify: string -> LineKind, lines: seq<string>) {
    var ks := Kinds(classify, lines);
    forall i :: 0 <= i < |lines| && ks[i] == PathLine && NoAppBefore(ks, i) ==> SliceableRemainder(Remainder(lines[i]))
  }

  predicate NoAppBefore(ks: seq<LineKind>, n: nat) {
    forall k :: 0 <= k < n && k < |ks| ==> ks[k] != AppLine
  }

  /** The first app line. */
  function FirstApp(ks: seq<LineKind>): (r: Option<nat>)
    ensures r.Some? ==> r.value < |ks| && ks[r.value] == AppLine && NoAppBefore(ks, r.value)
    ensures r.None? <==> NoAppBefore(ks, |ks|)
  {
    FirstAppFrom(ks, 0)
  }

  /** The first app line at or after `lo`. */
  function FirstAppFrom(ks: seq<LineKind>, lo: nat): (r: Option<nat>)
    requires lo <= |ks|
    ensures r.Some? ==> lo <= r.value < |ks| && ks[r.value] == AppLine
    ensures r.Some? ==> forall k :: lo <= k < r.value ==> ks[k] != AppLine
    ensures r.None? <==> forall k :: lo <= k < |ks| ==> ks[k] != AppLine
    decreases |ks| - lo
  {
    if lo == |ks| then None
    else if ks[lo] == AppLine then Some(lo)
    else FirstAppFrom(ks, lo + 1)
  }

  /** The last path line below `hi`. */
  function LastPath(ks: seq<LineKind>, hi: nat): (r: Option<nat>)
    requires hi <= |ks|
    ensures r.Some? ==> r.value < hi && ks[r.value] == PathLine
    ensures r.Some? ==> forall k :: r.value < k < hi ==> ks[k] != PathLine
    ensures r.None? ==> forall k :: 0 <= k < hi ==> ks[k] != PathLine
  {
    if hi == 0 then None
    else if ks[hi - 1] == PathLine then Some(hi - 1)
    else LastPath(ks, hi - 1)
  }

  /** The path remembered after the lines below `hi`. */
  function SeenPath(pathOf: string -> string, lines: seq<string>, ks: seq<LineKind>, hi: nat): Option<string>
    requires |ks| == |lines| && hi <= |ks|
  {
    match LastPath(ks, hi)
    case None => None
    case Some(i) => Some(pathOf(lines[i]))
  }

  /** The reference answer: the path of the last path line before the first
      app line; none when there is no app line or no path line before it. */
  function LibraryPath(classify: string -> LineKind, pathOf: string -> string, lines: seq<string>): Option<string> {
    var ks := Kinds(classify, lines);
    match FirstApp(ks)
    case None => None
    case Some(j) => SeenPath(pathOf, lines, ks, j)
  }

  /** One more line: a path line becomes the last one seen. */
  lemma LastPathStep(ks: seq<LineKind>, i: nat)
    requires i < |ks|
    ensures LastPath(ks, i + 1) == if ks[i] == PathLine then Some(i) else LastPath(ks, i)
  {
  }

  lemma NoAppStep(ks: seq<LineKind>, i: nat)
    requires i < |ks| && NoAppBefore(ks, i) && ks[i] != AppLine
    ensures NoAppBefore(ks, i + 1)
  {
  }

  /** The first app line is the one with none before it. */
  lemma FirstAppAt(ks: seq<LineKind>, j: nat)
    requires j < |ks| && ks[j] == AppLine && NoAppBefore(ks, j)
    ensures FirstApp(ks) == Some(j)
  {
    var r := FirstApp(ks);
    assert r.Some?;
  }

  /** The last path line below `hi` is the one with none after it. */
  lemma LastPathAt(ks: seq<LineKind>, p: nat, hi: nat)
    requires p < hi <= |ks| && ks[p] == PathLine
    requires forall k :: p < k < hi ==> ks[k] != PathLine
    ensures LastPath(ks, hi) == Some(p)
  {
    var r := LastPath(ks, hi);
    assert r.Some?;
  }

  /** `parse_library_path`: the lines in order; a path line replaces the
      remembered path, the first app line returns it, and running out of
      lines gives none. */
  method ParseLibraryPath(appId: u32, lines: seq<string>) returns (r: Option<string>)
    requires PathsReadable(LineClassifier(AppIdPrefix(appId)), lines)
    ensures r == LibraryPath(LineClassifier(AppIdPrefix(appId)), PathOf, lines)
  {
    var id := AppIdPrefix(appId);
    r := ScanLines(LineClassifier(id), lines);
  }

  /** The loop of `parse_library_path`, given how it classifies a line. */
  method ScanLines(classify: string -> LineKind, lines: seq<string>) returns (r: Option<string>)
    requires PathsReadable(classify, lines)
    ensures r == LibraryPath(classify, PathOf, lines)
  {
    ghost var ks := Kinds(classify, lines);
    var lastSeenPath: Option<string> := None;
    var i := 0;
    while i < |lines|
      invariant i <= |lines|
      invariant NoAppBefore(ks, i)
      invariant lastSeenPath == SeenPath(PathOf, lines, ks, i)
    {
      var kind := classify(lines[i]);
      ScanStep(classify, lines, ks, i, kind, lastSeenPath);
      if kind == PathLine {
        var s := Remainder(lines[i]);
        lastSeenPath := Some(s[..|s| - 1]);
      } else if kind == AppLine {
        return lastSeenPath;
      }
      i := i + 1;
    }
    ScanEnd(classify, lines, ks);
    return None;
  }

  /** Running out of lines: no app line, so no answer. */
  lemma ScanEnd(classify: string -> LineKind, lines: seq<string>, ks: seq<LineKind>)
    requires ks == Kinds(classify, lines) && NoAppBefore(ks, |lines|)
    ensures LibraryPath(classify, PathOf, lines) == None
  {
  }

  /** What one line of the scan contributes. A path line the scan reaches
      has a readable remainder, which without its last character becomes
      the path seen; an app line is the first one, so the path seen is the
      answer; any other line changes nothing. */
  lemma ScanStep(classify: string -> LineKind, lines: seq<string>, ks: seq<LineKind>, i: nat, kind: LineKind, seen: Option<string>)
    requires ks == Kinds(classify, lines) && i < |lines|
    requires PathsReadable(classify, lines) && NoAppBefore(ks, i)
    requires kind == classify(lines[i]) && seen == SeenPath(PathOf, lines, ks, i)
    ensures kind != AppLine ==> NoAppBefore(ks, i + 1)
    ensures kind == PathLine ==> |Remainder(lines[i])| > 0
    ensures kind == PathLine ==>
              SeenPath(PathOf, lines, ks, i + 1) == Some(Remainder(lines[i])[..|Remainder(lines[i])| - 1])
    ensures kind == AppLine ==> LibraryPath(classify, PathOf, lines) == seen
    ensures kind == OtherLine ==> SeenPath(PathOf, lines, ks, i + 1) == seen
  {
    KindsAt(classify, lines, i);
    LastPathStep(ks, i);
    if kind == AppLine {
      FirstAppAt(ks, i);
    } else {
      NoAppStep(ks, i);
    }
  }

  /** Lines after the first app line cannot change the answer: the scan has
      already returned. */
  lemma LaterLinesIrrelevant(classify: string -> LineKind, pathOf: string -> string, lines: seq<string>, more: seq<string>)
    requires !NoAppBefore(Kinds(classify, lines), |lines|)
    ensures LibraryPath(classify, pathOf, lines + more) == LibraryPath(classify, pathOf, lines)
  {
    var ks, all := Kinds(classify, lines), Kinds(classify, lines + more);
    KindsAppend(classify, lines, more);
    KindsExtended(ks, Kinds(classify, more));
    var j := FirstApp(ks).value;
    LibraryPathAt(classify, pathOf, lines, j);
    LibraryPathAt(classify, pathOf, lines + more, j);
    SeenPathExtended(pathOf, lines, more, ks, all, j);
  }

  /** With its first app line known, the answer is the path seen below it. */
  lemma LibraryPathAt(classify: string -> LineKind, pathOf: string -> string, lines: seq<string>, j: nat)
    requires FirstApp(Kinds(classify, lines)) == Some(j)
    ensures LibraryPath(classify, pathOf, lines) == SeenPath(pathOf, lines, Kinds(classify, lines), j)
  {
  }

  /** Lines added at the end do not change the path seen below `j` when
      the kinds below `j` agree. */
  lemma SeenPathExtended(pathOf: string -> string, lines: seq<string>, more: seq<string>, ks: seq<LineKind>, all: seq<LineKind>, j: nat)
    requires |ks| == |lines| && |all| == |lines| + |more| && j <= |ks|
    requires LastPath(all, j) == LastPath(ks, j)
    ensures SeenPath(pathOf, lines + more, all, j) == SeenPath(pathOf, lines, ks, j)
  {
    if LastPath(ks, j).Some? {
      var p := LastPath(ks, j).value;
      assert (lines + more)[p] == lines[p];
    }
  }

  /** Kinds after the first app line change neither it nor the last path
      line before it. */
  lemma KindsExtended(ks: seq<LineKind>, more: seq<LineKind>)
    requires !NoAppBefore(ks, |ks|)
    ensures FirstApp(ks + more) == FirstApp(ks)
    ensures LastPath(ks + more, FirstApp(ks).value) == LastPath(ks, FirstApp(ks).value)
  {
    var all := ks + more;
    assert forall k :: 0 <= k < |ks| ==> all[k] == ks[k];
    var j := FirstApp(ks).value;
    FirstAppAt(all, j);
    LastPathAgree(ks, all, j);
  }

  /** The kinds of two runs of lines laid end to end. */
  lemma {:induction false} KindsAppend(classify: string -> LineKind, a: seq<string>, b: seq<string>)
    ensures Kinds(classify, a + b) == Kinds(classify, a) + Kinds(classify, b)
  {
    if |a| == 0 {
      assert a + b == b;
    } else {
      assert (a + b)[1..] == a[1..] + b;
      KindsAppend(classify, a[1..], b);
    }
  }

  /** Kind sequences that agree below `n` have the same last path line
      below `n`. */
  lemma {:induction false} LastPathAgree(a: seq<LineKind>, b: seq<LineKind>, n: nat)
    requires n <= |a| && n <= |b|
    requires forall k :: 0 <= k < n ==> a[k] == b[k]
    ensures LastPath(a, n) == LastPath(b, n)
  {
    if n > 0 {
      LastPathAgree(a, b, n - 1);
      LastPathStep(a, n - 1);
      LastPathStep(b, n - 1);
    }
  }

  /** There is no answer without an app line, nor when the first app line
      comes before every path line. */
  lemma NoPathCases(classify: string -> LineKind, pathOf: string -> string, lines: seq<string>)
    ensures NoAppBefore(Kinds(classify, lines), |lines|) ==> LibraryPath(classify, pathOf, lines).None?
    ensures forall j :: 0 <= j < |lines| && Kinds(classify, lines)[j] == AppLine && NoPathBefore(Kinds(classify, lines), j)
              ==> LibraryPath(classify, pathOf, lines).None?
  {
    var ks := Kinds(classify, lines);
    forall j | 0 <= j < |lines| && ks[j] == AppLine && NoPathBefore(ks, j)
      ensures LibraryPath(classify, pathOf, lines).None?
    {
      var f := FirstApp(ks).value;
      assert f <= j;
    }
  }

  predicate NoPathBefore(ks: seq<LineKind>, n: nat) {
    forall k :: 0 <= k < n && k < |ks| ==> ks[k] != PathLine
  }

  /** The answer depends only on the kinds of the lines: after lines with
      no app line, a path line, then only other lines up to an app line,
      the first app line is that one and the last path line before it is
      the one given. */
  lemma PathOfBlock(ks: seq<LineKind>, bs: seq<LineKind>, ms: seq<LineKind>, rest: seq<LineKind>)
    requires ks == bs + [PathLine] + ms + [AppLine] + rest
    requires NoAppBefore(bs, |bs|)
    requires forall k :: 0 <= k < |ms| ==> ms[k] == OtherLine
    ensures FirstApp(ks) == Some(|bs| + 1 + |ms|) && LastPath(ks, |bs| + 1 + |ms|) == Some(|bs|)
  {
    var p := |bs|;
    var j := |bs| + 1 + |ms|;
    assert forall k :: 0 <= k < p ==> ks[k] == bs[k];
    assert forall k :: p < k < j ==> ks[k] == ms[k - p - 1];
    assert ks[p] == PathLine && ks[j] == AppLine;
    FirstAppAt(ks, j);
    LastPathAt(ks, p, j);
  }

  /** A path entry as Steam writes it: indentation, `"path"`, a gap without
      quotes, then the quoted path. The entry is a path line and its path
      is the text between the last two quotes. */
  lemma PathEntry(id: string, indent: string, gap: string, path: string)
    requires AllWhitespace(indent) && Quote !in gap && Quote !in path
    ensures KindOf(id, indent + PathKey + gap + [Quote] + path + [Quote]) == PathLine
    ensures PathOf(indent + PathKey + gap + [Quote] + path + [Quote]) == path
  {
    var tail := gap + [Quote] + path + [Quote];
    var line := indent + PathKey + gap + [Quote] + path + [Quote];
    assert line == indent + PathKey + tail;
    assert (path + [Quote])[..|path|] == path;
    EntryLine(indent, tail);
    WhitespaceHasNoQuote(indent);
    EntryRemainder(indent, tail, gap, path);
  }

  /** The trimmed entry starts with the path key. */
  lemma EntryLine(indent: string, tail: string)
    requires AllWhitespace(indent)
    ensures StartsWith(TrimStart(indent + PathKey + tail), PathKey)
  {
    assert indent + PathKey + tail == indent + (PathKey + tail);
    assert (PathKey + tail)[..|PathKey|] == PathKey;
    assert (PathKey + tail)[0] == Quote;
    TrimStartPadded(indent, PathKey + tail);
  }

  /** Whitespace holds no quote. */
  lemma WhitespaceHasNoQuote(s: string)
    requires AllWhitespace(s)
    ensures Quote !in s
  {
    assert forall i :: 0 <= i < |s| ==> IsWhitespace(s[i]);
  }

  /** The three quotes of a path entry are the two around `path` and the
      one after the gap; what follows is the path and its closing quote. */
  lemma EntryRemainder(indent: string, tail: string, gap: string, path: string)
    requires Quote !in indent && Quote !in gap && Quote !in path
    requires tail == gap + [Quote] + path + [Quote]
    ensures Remainder(indent + PathKey + tail) == path + [Quote]
  {
    var key := "path";
    assert PathKey == [Quote] + key + [Quote];
    assert indent + PathKey + tail == indent + [Quote] + key + [Quote] + gap + [Quote] + (path + [Quote]);
    KeyFacts();
    ThreeQuotes(indent, key, gap, path + [Quote]);
  }

  /** After three quotes, each preceded by quote-free text, comes `d`. */
  lemma ThreeQuotes(a: string, b: string, c: string, d: string)
    requires Quote !in a && Quote !in b && Quote !in c
    ensures AfterSeparators(a + [Quote] + b + [Quote] + c + [Quote] + d, 3, Quote) == d
  {
    var s3 := c + [Quote] + d;
    var s2 := b + [Quote] + s3;
    assert a + [Quote] + b + [Quote] + c + [Quote] + d == a + [Quote] + s2;
    assert s2 == b + [Quote] + (c + [Quote] + d);
    SkipSeparator(a, s2, 3);
    SkipSeparator(b, s3, 2);
    SkipSeparator(c, d, 1);
  }

  /** Skipping one separator that comes after separator-free text. */
  lemma SkipSeparator(a: string, b: string, n: nat)
    requires Quote !in a && n > 0
    ensures AfterSeparators(a + [Quote] + b, n, Quote) == AfterSeparators(b, n - 1, Quote)
  {
    var s := a + [Quote] + b;
    IndexOfAfterFree(a, Quote, b);
    assert s[|a| + 1..] == b;
  }

  /** App detection is a prefix test: any line that, after indentation,
      starts with a quote and the app id is an app line, whatever follows
      (`"4935201` included). */
  lemma AppLinePrefix(appId: u32, indent: string, rest: string)
    requires AllWhitespace(indent)
    ensures KindOf(AppIdPrefix(appId), indent + AppIdPrefix(appId) + rest) == AppLine
  {
    IdLinePrefix(AppIdPrefix(appId), indent, rest);
  }

  /** The same for any id that, like the app's, is a quote and a digit
      first. */
  lemma IdLinePrefix(id: string, indent: string, rest: string)
    requires |id| >= 2 && id[0] == Quote && IsAsciiDigit(id[1])
    requires AllWhitespace(indent)
    ensures KindOf(id, indent + id + rest) == AppLine
  {
    var p := id;
    var t := p + rest;
    assert indent + p + rest == indent + t;
    assert t[0] == Quote;
    TrimStartPadded(indent, t);
    assert t[..|p|] == p;
    KeyFacts();
    PrefixesDiffer(t, p, PathKey);
  }

  /** The path key: a quote, `path`, a quote. */
  lemma KeyFacts()
    ensures |PathKey| == 6 && PathKey[0] == Quote && PathKey[1] == 'p' && !IsAsciiDigit(PathKey[1])
    ensures Quote !in "path"
  {
  }

  /** Text that starts with `a` does not start with a `b` that differs from
      `a` at index 1. */
  lemma PrefixesDiffer(t: string, a: string, b: string)
    requires |a| >= 2 && |b| >= 2 && a[1] != b[1] && StartsWith(t, a)
    ensures !StartsWith(t, b)
  {
    assert t[1] == a[1];
    if |b| <= |t| {
      assert t[..|b|][1] == t[1];
    }
  }

  /** The shape of `finds_path_if_multiple_game_libraries`: a block before the app's own block
      does not matter. With a path line of the right block, then lines that
      are neither path nor app lines, then the app line, the answer is that
      block's path. */
  lemma BlockOfApp(classify: string -> LineKind, pathOf: string -> string, before: seq<string>, pathLine: string, between: seq<string>, appLine: string, after: seq<string>)
    requires NoAppBefore(Kinds(classify, before), |before|)
    requires classify(pathLine) == PathLine
    requires forall k :: 0 <= k < |between| ==> Kinds(classify, between)[k] == OtherLine
    requires classify(appLine) == AppLine
    ensures LibraryPath(classify, pathOf, before + [pathLine] + between + [appLine] + after) == Some(pathOf(pathLine))
  {
    var lines := before + [pathLine] + between + [appLine] + after;
    assert lines[|before|] == pathLine;
    BlockKinds(classify, before, pathLine, between, appLine, after);
    LibraryPathOfKinds(classify, pathOf, lines, Kinds(classify, before), Kinds(classify, between), Kinds(classify, after), pathLine);
  }

  /** The same with the scan's own classifier for the game's id: an
      indented `"path"` entry, then lines that are neither entries nor app
      lines, then an indented line starting with `"493520`, yields the
      entry's path, whatever blocks without the app come before. */
  lemma FindsGamePath(before: seq<string>, indent: string, gap: string, path: string,
                      between: seq<string>, indent2: string, rest: string, after: seq<string>)
    requires NoAppBefore(Kinds(LineClassifier(AppIdPrefix(GtfoAppId)), before), |before|)
    requires AllWhitespace(indent) && Quote !in gap && Quote !in path
    requires forall k :: 0 <= k < |between| ==> Kinds(LineClassifier(AppIdPrefix(GtfoAppId)), between)[k] == OtherLine
    requires AllWhitespace(indent2)
    ensures LibraryPath(LineClassifier(AppIdPrefix(GtfoAppId)), PathOf,
                        before + [indent + PathKey + gap + [Quote] + path + [Quote]] + between
                        + [indent2 + AppIdPrefix(GtfoAppId) + rest] + after) == Some(path)
  {
    var id := AppIdPrefix(GtfoAppId);
    var pathLine := indent + PathKey + gap + [Quote] + path + [Quote];
    var appLine := indent2 + id + rest;
    PathEntry(id, indent, gap, path);
    AppLinePrefix(GtfoAppId, indent2, rest);
    BlockOfApp(LineClassifier(id), PathOf, before, pathLine, between, appLine, after);
  }

  /** Lines whose kinds form a block have the block's path as the answer. */
  lemma LibraryPathOfKinds(classify: string -> LineKind, pathOf: string -> string, lines: seq<string>, bs: seq<LineKind>, ms: seq<LineKind>, rest: seq<LineKind>, pathLine: string)
    requires Kinds(classify, lines) == bs + [PathLine] + ms + [AppLine] + rest
    requires NoAppBefore(bs, |bs|)
    requires forall k :: 0 <= k < |ms| ==> ms[k] == OtherLine
    requires |bs| < |lines| && lines[|bs|] == pathLine
    ensures LibraryPath(classify, pathOf, lines) == Some(pathOf(pathLine))
  {
    var ks := Kinds(classify, lines);
    PathOfBlock(ks, bs, ms, rest);
  }

  /** The kinds of a block, piece by piece. */
  lemma BlockKinds(classify: string -> LineKind, before: seq<string>, pathLine: string, between: seq<string>, appLine: string, after: seq<string>)
    ensures Kinds(classify, before + [pathLine] + between + [appLine] + after)
         == Kinds(classify, before) + [classify(pathLine)] + Kinds(classify, between) + [classify(appLine)] + Kinds(classify, after)
  {
    var a := before + [pathLine];
    KindsSnoc(classify, before, pathLine);
    var b := a + between;
    KindsAppend(classify, a, between);
    var c := b + [appLine];
    KindsSnoc(classify, b, appLine);
    KindsAppend(classify, c, after);
  }

  /** The kinds of lines with one more line at the end. */
  lemma KindsSnoc(classify: string -> LineKind, a: seq<string>, line: string)
    ensures Kinds(classify, a + [line]) == Kinds(classify, a) + [classify(line)]
  {
    KindsAppend(classify, a, [line]);
    assert [line][1..] == [];
  }
}
