/** Recognising the game's per-session log files by name and reading the
    time stamp embedded in the name.

    The file-name pattern is `GTFO\.(\d{4}\.\d{2}\.\d{2}\.\d{2}\.\d{2}\.\d{2})_.*\.txt`,
    searched anywhere in the name (it is not anchored). It is recognised here
    by hand: `d` stands for an ASCII digit, `.*` for any run of characters
    other than a line feed. */
module SessionFileName {
  import opened Base
  import opened Text

  const Prefix: string := "GTFO."
  const Suffix: string := ".txt"

  /** `\d{n}` at index `k`. */
  predicate DigitsAt(s: string, k: nat, n: nat) {
    k + n <= |s| && AllDigits(s[k..k + n])
  }

  /** `\d{4}\.\d{2}\.\d{2}\.\d{2}\.\d{2}\.\d{2}` starts at index `k`. */
  predicate StampAt(s: string, k: nat) {
    && k + 19 <= |s|
    && DigitsAt(s, k, 4) && s[k + 4] == '.'
    && DigitsAt(s, k + 5, 2) && s[k + 7] == '.'
    && DigitsAt(s, k + 8, 2) && s[k + 10] == '.'
    && DigitsAt(s, k + 11, 2) && s[k + 13] == '.'
    && DigitsAt(s, k + 14, 2) && s[k + 16] == '.'
    && DigitsAt(s, k + 17, 2)
  }

  /** `.*\.txt` matches from index `k`: a `.txt` starts at or after `k`
      with no line feed in between. */
  predicate TxtFrom(s: string, k: nat) {
    exists j :: k <= j <= |s| && OccursAt(s, Suffix, j) && '\n' !in s[k..j]
  }

  /** The whole pattern matches starting at index `i`: prefix at `i`, stamp
      at `i + 5`, underscore at `i + 24`, then `.*\.txt` from `i + 25`. */
  predicate MatchAt(s: string, i: nat) {
    && OccursAt(s, Prefix, i)
    && StampAt(s, i + |Prefix|)
    && i + 25 <= |s|
    && s[i + 24] == '_'
    && TxtFrom(s, i + 25)
  }

  /** `file_contains_log_ids`: the pattern matches somewhere in the name. */
  predicate IsCandidate(name: string) {
    exists i :: 0 <= i <= |name| && MatchAt(name, i)
  }

  /** The leftmost match at or after `from`, which is where the regex engine
      takes its capture from. */
  function FirstMatchFrom(s: string, from: nat): (r: Option<nat>)
    ensures r.Some? ==> from <= r.value <= |s| && MatchAt(s, r.value)
    ensures r.Some? ==> forall j :: from <= j < r.value ==> !MatchAt(s, j)
    ensures r.None? ==> forall j :: from <= j <= |s| ==> !MatchAt(s, j)
    decreases |s| - from
  {
    if from > |s| then None
    else if MatchAt(s, from) then Some(from)
    else FirstMatchFrom(s, from + 1)
  }

  /** A calendar date and time of day, as `time::PrimitiveDateTime` holds it
      (without the sub-second part, which a file name cannot carry). */
  datatype DateTime = DateTime(year: nat, month: nat, day: nat, hour: nat, minute: nat, second: nat)

  predicate IsLeapYear(y: nat) {
    y % 4 == 0 && (y % 100 != 0 || y % 400 == 0)
  }

  function DaysInMonth(y: nat, m: nat): nat
    requires 1 <= m <= 12
  {
    if m == 2 then (if IsLeapYear(y) then 29 else 28)
    else if m == 4 || m == 6 || m == 9 || m == 11 then 30
    else 31
  }

  /** What `Month::try_from`, `Date::from_calendar_date` and `Time::from_hms`
      accept (years from four digits are always in the `time` crate's range). */
  predicate ValidDateTime(d: DateTime) {
    && d.year <= 9999
    && 1 <= d.month <= 12
    && 1 <= d.day <= DaysInMonth(d.year, d.month)
    && d.hour < 24 && d.minute < 60 && d.second < 60
  }

  /** The chronological order of `PrimitiveDateTime`: field by field, most
      significant first. */
  predicate NotAfter(a: DateTime, b: DateTime) {
    if a.year != b.year then a.year < b.year
    else if a.month != b.month then a.month < b.month
    else if a.day != b.day then a.day < b.day
    else if a.hour != b.hour then a.hour < b.hour
    else if a.minute != b.minute then a.minute < b.minute
    else a.second <= b.second
  }

  lemma NotAfterTotal(a: DateTime, b: DateTime)
    ensures NotAfter(a, b) || NotAfter(b, a)
    ensures NotAfter(a, b) && NotAfter(b, a) ==> a == b
  {
  }

  lemma NotAfterTransitive(a: DateTime, b: DateTime, c: DateTime)
    requires NotAfter(a, b) && NotAfter(b, c)
    ensures NotAfter(a, c)
  {
  }

  /** The six numbers of a stamp, split on its dots. */
  function StampFields(s: string, k: nat): DateTime
    requires StampAt(s, k)
  {
    DateTime(DigitsValue(s[k..k + 4]), DigitsValue(s[k + 5..k + 7]), DigitsValue(s[k + 8..k + 10]),
             DigitsValue(s[k + 11..k + 13]), DigitsValue(s[k + 14..k + 16]), DigitsValue(s[k + 17..k + 19]))
  }

  /** The stamp a name carries at its leftmost match, if it matches at all. */
  function StampOf(name: string): Option<DateTime> {
    match FirstMatchFrom(name, 0)
    case None => None
    case Some(i) => Some(StampFields(name, i + |Prefix|))
  }

  /** What `parse_file_name` needs in order not to panic: whenever the name
      matches, its stamp is a real calendar date and time of day. */
  predicate WellFormedName(name: string) {
    StampOf(name).Some? ==> ValidDateTime(StampOf(name).value)
  }

  function Pad2(n: nat): (r: string)
    requires n < 100
  {
    [DigitChar(n / 10), DigitChar(n % 10)]
  }

  function Pad4(n: nat): (r: string)
    requires n < 10000
  {
    Pad2(n / 100) + Pad2(n % 100)
  }

  /** The stamp text for `d`, zero-padded the way the game writes it. */
  function FormatStamp(d: DateTime): (r: string)
    requires ValidDateTime(d)
  {
    Pad4(d.year) + "." + Pad2(d.month) + "." + Pad2(d.day) + "." + Pad2(d.hour) + "." + Pad2(d.minute) + "." + Pad2(d.second)
  }

  /** `parse_file_name`: the date and time in the stamp of the leftmost match,
      or `None` when the name does not match. The `time` crate's
      constructors are unwrapped in the source, so invalid calendar values are
      a precondition rather than a `None`. */
  function ParseFileName(name: string): (r: Option<DateTime>)
    requires WellFormedName(name)
    ensures r.Some? <==> IsCandidate(name)
    ensures r.Some? ==> ValidDateTime(r.value)
    ensures r.Some? ==>
      exists i :: 0 <= i <= |name| && MatchAt(name, i) && (forall j :: 0 <= j < i ==> !MatchAt(name, j))
                  && name[i + 5..i + 24] == FormatStamp(r.value)
  {
    match FirstMatchFrom(name, 0)
    case None => None
    case Some(i) =>
      var d := StampFields(name, i + |Prefix|);
      FormatStampFields(name, i + |Prefix|);
      Some(d)
  }

  lemma DigitCharValue(c: char)
    requires IsAsciiDigit(c)
    ensures DigitChar(DigitValue(c)) == c
  {
  }

  lemma Pad2Digits(t: string)
    requires |t| == 2 && AllDigits(t)
    ensures DigitsValue(t) < 100 && Pad2(DigitsValue(t)) == t
  {
    var a := DigitValue(t[0]);
    var b := DigitValue(t[1]);
    assert t[..1][..0] == [] && t[..1][0] == t[0];
    assert DigitsValue(t[..1]) == a;
    assert DigitsValue(t) == a * 10 + b;
    DivMod10(a, b);
    DigitCharValue(t[0]);
    DigitCharValue(t[1]);
  }

  lemma DivMod10(a: nat, b: nat)
    requires b < 10
    ensures (a * 10 + b) / 10 == a && (a * 10 + b) % 10 == b
  {
  }

  lemma DivMod100(a: nat, b: nat)
    requires b < 100
    ensures (a * 100 + b) / 100 == a && (a * 100 + b) % 100 == b
  {
  }

  lemma Pad4Digits(t: string)
    requires |t| == 4 && AllDigits(t)
    ensures DigitsValue(t) < 10000 && Pad4(DigitsValue(t)) == t
  {
    var hi := t[..2];
    var lo := t[2..];
    assert t == hi + lo;
    DigitsConcat2(hi, lo);
    Pad2Digits(hi);
    Pad2Digits(lo);
    DivMod100(DigitsValue(hi), DigitsValue(lo));
  }

  lemma DigitsConcat2(hi: string, lo: string)
    requires |lo| == 2 && AllDigits(hi) && AllDigits(lo)
    ensures AllDigits(hi + lo)
    ensures DigitsValue(hi + lo) == DigitsValue(hi) * 100 + DigitsValue(lo)
  {
    var s := hi + lo;
    var mid := s[..|s| - 1];
    assert mid == hi + [lo[0]];
    assert mid[..|mid| - 1] == hi;
    assert DigitsValue(mid) == DigitsValue(hi) * 10 + DigitValue(lo[0]);
    assert lo[..1][..0] == [] && lo[..1][0] == lo[0];
    assert DigitsValue(lo[..1]) == DigitValue(lo[0]);
    assert DigitsValue(lo) == DigitValue(lo[0]) * 10 + DigitValue(lo[1]);
  }

  /** Formatting the fields read from a stamp gives the stamp back. */
  lemma FormatStampFields(s: string, k: nat)
    requires StampAt(s, k)
    requires ValidDateTime(StampFields(s, k))
    ensures FormatStamp(StampFields(s, k)) == s[k..k + 19]
  {
    Pad4Digits(s[k..k + 4]);
    Pad2Digits(s[k + 5..k + 7]);
    Pad2Digits(s[k + 8..k + 10]);
    Pad2Digits(s[k + 11..k + 13]);
    Pad2Digits(s[k + 14..k + 16]);
    Pad2Digits(s[k + 17..k + 19]);
    assert s[k..k + 19] == s[k..k + 4] + "." + s[k + 5..k + 7] + "." + s[k + 8..k + 10] + "."
                         + s[k + 11..k + 13] + "." + s[k + 14..k + 16] + "." + s[k + 17..k + 19];
  }

  lemma Pad2Value(n: nat)
    requires n < 100
    ensures AllDigits(Pad2(n)) && DigitsValue(Pad2(n)) == n
  {
    var t := Pad2(n);
    assert t[..1][..0] == [] && t[..1][0] == t[0];
    assert DigitsValue(t[..1]) == n / 10;
  }

  lemma Pad4Value(n: nat)
    requires n < 10000
    ensures AllDigits(Pad4(n)) && DigitsValue(Pad4(n)) == n
  {
    Pad2Value(n / 100);
    Pad2Value(n % 100);
    DigitsConcat2(Pad2(n / 100), Pad2(n % 100));
  }

  /** Where the six fields and five dots sit in a 19-character stamp. */
  lemma StampLayout(f: string, y: string, mo: string, dd: string, h: string, mi: string, se: string)
    requires |y| == 4 && |mo| == 2 && |dd| == 2 && |h| == 2 && |mi| == 2 && |se| == 2
    requires f == y + "." + mo + "." + dd + "." + h + "." + mi + "." + se
    ensures |f| == 19
    ensures f[..4] == y && f[5..7] == mo && f[8..10] == dd && f[11..13] == h && f[14..16] == mi && f[17..19] == se
    ensures f[4] == '.' && f[7] == '.' && f[10] == '.' && f[13] == '.' && f[16] == '.'
  {
  }

  /** A slice of a slice is a slice. */
  lemma SubSlice(s: string, k: nat, n: nat, f: string, a: nat, b: nat)
    requires k + n <= |s| && s[k..k + n] == f && a <= b <= n
    ensures s[k + a..k + b] == f[a..b]
  {
    assert forall j :: a <= j < b ==> s[k + j] == f[j];
  }

  /** Reading the stamp that `FormatStamp` wrote gives the fields back. */
  lemma StampFieldsFormat(s: string, k: nat, d: DateTime)
    requires ValidDateTime(d)
    requires k + 19 <= |s| && s[k..k + 19] == FormatStamp(d)
    ensures StampAt(s, k) && StampFields(s, k) == d
  {
    var f := FormatStamp(d);
    StampLayout(f, Pad4(d.year), Pad2(d.month), Pad2(d.day), Pad2(d.hour), Pad2(d.minute), Pad2(d.second));
    Pad4Value(d.year);
    Pad2Value(d.month);
    Pad2Value(d.day);
    Pad2Value(d.hour);
    Pad2Value(d.minute);
    Pad2Value(d.second);
    SubSlice(s, k, 19, f, 0, 4);
    SubSlice(s, k, 19, f, 5, 7);
    SubSlice(s, k, 19, f, 8, 10);
    SubSlice(s, k, 19, f, 11, 13);
    SubSlice(s, k, 19, f, 14, 16);
    SubSlice(s, k, 19, f, 17, 19);
    assert forall j :: 0 <= j < 19 ==> s[k + j] == f[j];
  }

  /** Whatever the free text between the stamp and `.txt` (as long as it has
      no line feed, which `.` does not match), the name the game gives a
      session log (prefix, stamp, underscore, free text, `.txt`) is a
      candidate and parses to exactly the date and time it was written with. */
  lemma ParseSessionLogName(d: DateTime, stamp: string, middle: string, name: string)
    requires ValidDateTime(d) && stamp == FormatStamp(d)
    requires '\n' !in middle
    requires name == Prefix + stamp + "_" + middle + Suffix
    ensures IsCandidate(name)
    ensures WellFormedName(name) && ParseFileName(name) == Some(d)
  {
    assert |stamp| == 19;
    assert name[..5] == Prefix;
    assert name[5..24] == stamp;
    StampFieldsFormat(name, 5, d);
    assert name[24] == '_';
    var j := 25 + |middle|;
    assert name[j..j + 4] == Suffix;
    assert name[25..j] == middle;
    assert OccursAt(name, Suffix, j);
    assert TxtFrom(name, 25);
    assert MatchAt(name, 0);
    assert FirstMatchFrom(name, 0) == Some(0);
  }

  /** The fallback file is not a candidate: it is too short to match. */
  lemma PlayerLogIsNotCandidate()
    ensures !IsCandidate("Player.log")
  {
  }
}
