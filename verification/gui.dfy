/** The application state of the window (`iced_gui/mod.rs`): the reducer
    that applies a message to the state, and the rows the log table shows.
    Rendering, fonts, scrolling and column widths are not modelled. */
module Gui {
  import opened Base
  import opened Text
  import opened GameData
  import PlayFab
  import Watcher

  /** The loaded view. The column layout of the table is not kept. */
  datatype MainView = MainView(
    allLogs: seq<StoryLog>, readLogIds: set<u32>, hideRead: bool, autoFilter: bool, filter: string, gtfoPath: string)

  datatype App = Loading | Loaded(view: MainView) | Error(message: string)

  /** The messages whose handling changes modelled state or is a no-op on
      it. `FontLoaded` carries only whether loading succeeded. */
  datatype Message =
    | DataLoaded(logs: seq<StoryLog>, ids: set<u32>, path: string)
    | ToggleHideRead(hidden: bool)
    | ToggleAutoFilter(on: bool)
    | FilterChanged(text: string)
    | FontLoaded(ok: bool)
    | ErrorMessage(error: string)
    | NewLogRead(id: u32)
    | LevelChanged(levelName: string)

  /** `From<GameEvent> for Message`: a read log and a selected level reach
      the window as these two messages. */
  function FromGameEvent(e: Watcher.GameEvent): (m: Message)
    ensures e.LogRead? <==> m.NewLogRead?
    ensures e.LogRead? ==> m.id == e.id
    ensures e.LevelSelected? ==> m == LevelChanged(e.level)
  {
    match e
    case LogRead(id) => NewLogRead(id)
    case LevelSelected(name) => LevelChanged(name)
  }

  /** `MainView::new`: read entries shown, automatic filtering on, empty
      filter. */
  function NewMainView(logs: seq<StoryLog>, ids: set<u32>, path: string): (v: MainView)
    ensures v.allLogs == logs && v.readLogIds == ids && v.gtfoPath == path
    ensures !v.hideRead && v.autoFilter && v.filter == ""
  {
    MainView(logs, ids, false, true, "", path)
  }

  /** `GtfoLogTracker::update` on the view of a loaded window. */
  function UpdateView(v: MainView, m: Message): (r: MainView)
    requires !m.DataLoaded? && !m.ErrorMessage?
    ensures r.allLogs == v.allLogs && r.gtfoPath == v.gtfoPath
    ensures m.NewLogRead? ==> r.readLogIds == v.readLogIds + {m.id}
    ensures !m.NewLogRead? ==> r.readLogIds == v.readLogIds
    ensures m.ToggleHideRead? ==> r.hideRead == m.hidden
    ensures !m.ToggleHideRead? ==> r.hideRead == v.hideRead
    ensures m.ToggleAutoFilter? ==> r.autoFilter == m.on
    ensures !m.ToggleAutoFilter? ==> r.autoFilter == v.autoFilter
    ensures m.FilterChanged? ==> r.filter == m.text
    ensures m.LevelChanged? ==> r.filter == (if v.autoFilter then m.levelName else v.filter)
    ensures !m.FilterChanged? && !m.LevelChanged? ==> r.filter == v.filter
  {
    match m
    case NewLogRead(id) =>
      if id !in v.readLogIds then v.(readLogIds := v.readLogIds + {id}) else v
    case ToggleHideRead(h) => v.(hideRead := h)
    case ToggleAutoFilter(on) => v.(autoFilter := on)
    case FilterChanged(text) => v.(filter := text)
    case LevelChanged(name) => if v.autoFilter then v.(filter := name) else v
    case FontLoaded(_) => v
  }

  /** `GtfoLogTracker::update`: loaded data replaces any state with a fresh
      view, an error replaces any state, and every other message acts on a
      loaded view only. */
  function Update(app: App, m: Message): (r: App)
    ensures m.DataLoaded? ==> r == Loaded(NewMainView(m.logs, m.ids, m.path))
    ensures m.ErrorMessage? ==> r == Error(m.error)
    ensures !m.DataLoaded? && !m.ErrorMessage? && !app.Loaded? ==> r == app
    ensures !m.DataLoaded? && !m.ErrorMessage? && app.Loaded? ==> r == Loaded(UpdateView(app.view, m))
  {
    match m
    case DataLoaded(logs, ids, path) => Loaded(NewMainView(logs, ids, path))
    case ErrorMessage(e) => Error(e)
    case _ => if app.Loaded? then Loaded(UpdateView(app.view, m)) else app
  }

  /** The messages apply one after another. */
  function UpdateAll(app: App, ms: seq<Message>): App
    decreases |ms|
  {
    if |ms| == 0 then app else UpdateAll(Update(app, ms[0]), ms[1..])
  }

  /** Between loads and errors, the read set only grows: every id it held is
      still there, together with every id a `NewLogRead` reported. */
  lemma {:induction false} ReadSetGrows(v: MainView, ms: seq<Message>)
    requires forall k :: 0 <= k < |ms| ==> !ms[k].DataLoaded? && !ms[k].ErrorMessage?
    ensures UpdateAll(Loaded(v), ms).Loaded?
    ensures v.readLogIds <= UpdateAll(Loaded(v), ms).view.readLogIds
    ensures forall k :: 0 <= k < |ms| && ms[k].NewLogRead? ==> ms[k].id in UpdateAll(Loaded(v), ms).view.readLogIds
    ensures UpdateAll(Loaded(v), ms).view.allLogs == v.allLogs
    decreases |ms|
  {
    if |ms| > 0 {
      var v' := UpdateView(v, ms[0]);
      assert forall k :: 0 <= k < |ms| - 1 ==> ms[1..][k] == ms[k + 1];
      ReadSetGrows(v', ms[1..]);
      var r := UpdateAll(Loaded(v'), ms[1..]).view.readLogIds;
      forall k | 0 <= k < |ms| && ms[k].NewLogRead?
        ensures ms[k].id in r
      {
        if k > 0 {
          assert ms[1..][k - 1] == ms[k];
        }
      }
    }
  }

  /** A window that is not loaded ignores everything but loads and errors. */
  lemma {:induction false} NotLoadedIgnores(app: App, ms: seq<Message>)
    requires !app.Loaded?
    requires forall k :: 0 <= k < |ms| ==> !ms[k].DataLoaded? && !ms[k].ErrorMessage?
    ensures UpdateAll(app, ms) == app
    decreases |ms|
  {
    if |ms| > 0 {
      assert forall k :: 0 <= k < |ms| - 1 ==> ms[1..][k] == ms[k + 1];
      NotLoadedIgnores(app, ms[1..]);
    }
  }

  // ---------------------------------------------------------------------
  // Table rows
  // ---------------------------------------------------------------------

  /** One line of the log table: one location of one story log. */
  datatype Row = Row(level: string, zone: string, name: string, id: u32, read: bool)

  /** `comma_join`: the numbers in decimal, folded left, with `", "` in front
      of every number but the first. */
  function CommaJoin(nums: seq<u16>): string {
    if |nums| == 0 then []
    else CommaJoin(nums[..|nums| - 1]) + (if |nums| == 1 then Decimal(nums[0]) else ", " + Decimal(nums[|nums| - 1]))
  }

  function Decimals(nums: seq<u16>): (r: seq<string>)
    ensures |r| == |nums|
    ensures forall k :: 0 <= k < |nums| ==> r[k] == Decimal(nums[k])
  {
    seq(|nums|, k requires 0 <= k < |nums| => Decimal(nums[k]))
  }

  /** Joining one more part at the end. */
  lemma {:induction false} JoinSnoc(parts: seq<string>, p: string, glue: string)
    requires |parts| > 0
    ensures Join(parts + [p], glue) == Join(parts, glue) + glue + p
  {
    if |parts| > 1 {
      assert (parts + [p])[1..] == parts[1..] + [p];
      JoinSnoc(parts[1..], p, glue);
    } else {
      assert (parts + [p])[1..] == [p];
    }
  }

  /** The decimal texts of all numbers are those of all but the last, then
      the last one's. */
  lemma DecimalsSnoc(nums: seq<u16>)
    requires |nums| > 0
    ensures Decimals(nums) == Decimals(nums[..|nums| - 1]) + [Decimal(nums[|nums| - 1])]
  {
  }

  /** `comma_join` is the decimal texts joined with `", "`: no separator at
      either end, and the empty text for no numbers. */
  lemma {:induction false} CommaJoinIsJoin(nums: seq<u16>)
    ensures CommaJoin(nums) == Join(Decimals(nums), ", ")
  {
    if |nums| > 1 {
      var init := nums[..|nums| - 1];
      DecimalsSnoc(nums);
      CommaJoinIsJoin(init);
      JoinSnoc(Decimals(init), Decimal(nums[|nums| - 1]), ", ");
    }
  }

  /** Reading the joined zones back with `parse_ids` gives the zones, so the
      text loses nothing. */
  lemma CommaJoinParses(nums: seq<u16>)
    ensures PlayFab.ParseIds(CommaJoin(nums)) == nums
  {
    CommaJoinIsJoin(nums);
    if |nums| == 0 {
      PlayFab.ParseIdsEmpty();
    } else {
      var s := Join(Decimals(nums), ", ");
      JoinedDigitsFront(nums);
      DigitFrontUnbracketed(s);
      JoinedSegments([], nums);
      assert [] + s == s;
    }
  }

  /** Text that opens with a digit is not bracketed. */
  lemma DigitFrontUnbracketed(s: string)
    requires |s| > 0 && IsAsciiDigit(s[0])
    ensures PlayFab.Unbracket(s) == s
  {
    assert !StartsWith(s, "[");
  }

  /** The joined text starts with a digit, so it is never bracketed. */
  lemma JoinedDigitsFront(nums: seq<u16>)
    requires |nums| > 0
    ensures |Join(Decimals(nums), ", ")| > 0 && IsAsciiDigit(Join(Decimals(nums), ", ")[0])
  {
    var d := Decimals(nums);
    if |nums| > 1 {
      assert Join(d, ", ") == d[0] + ", " + Join(d[1..], ", ");
    }
    assert d[0] == Decimal(nums[0]);
  }

  /** The comma segments of the joined text, after any leading whitespace,
      read back as the numbers. */
  lemma {:induction false} JoinedSegments(pre: string, nums: seq<u16>)
    requires AllWhitespace(pre) && |nums| > 0
    ensures ParseSegments(Split(pre + Join(Decimals(nums), ", "), ',')) == nums
    decreases |nums|
  {
    if |nums| == 1 {
      JoinedOne(pre, nums);
    } else {
      JoinedSegments(" ", nums[1..]);
      JoinedStep(pre, nums);
    }
  }

  /** A single number after whitespace is one segment with that id. */
  lemma JoinedOne(pre: string, nums: seq<u16>)
    requires AllWhitespace(pre) && |nums| == 1
    ensures ParseSegments(Split(pre + Join(Decimals(nums), ", "), ',')) == nums
  {
    var first := pre + Decimal(nums[0]);
    assert pre + Join(Decimals(nums), ", ") == first;
    JoinedHead(pre, nums[0]);
    assert IndexOf(first, ',').None?;
  }

  /** A number after whitespace holds no comma and reads as that number. */
  lemma JoinedHead(pre: string, n: u16)
    requires AllWhitespace(pre)
    ensures ',' !in pre + Decimal(n)
    ensures ParseSegments([pre + Decimal(n)]) == [n]
  {
    PlayFab.SegmentOfPadded(pre, n, []);
    assert pre + Decimal(n) + [] == pre + Decimal(n);
    PlayFab.ParseSegmentsOne(pre + Decimal(n));
  }

  /** The segments are read one after another. */
  lemma ParseSegmentsCons(seg: string, rest: seq<string>)
    ensures ParseSegments([seg] + rest) == ParseSegments([seg]) + ParseSegments(rest)
  {
    FilterMapConcat([seg], rest, SegmentId);
  }

  /** The first number and its comma, then the rest read as before. */
  lemma JoinedStep(pre: string, nums: seq<u16>)
    requires AllWhitespace(pre) && |nums| > 1
    requires ParseSegments(Split(" " + Join(Decimals(nums[1..]), ", "), ',')) == nums[1..]
    ensures ParseSegments(Split(pre + Join(Decimals(nums), ", "), ',')) == nums
  {
    HeadTail(nums);
    var first := pre + Decimal(nums[0]);
    var tail := " " + Join(Decimals(nums[1..]), ", ");
    JoinedFirst(pre, nums);
    JoinedHead(pre, nums[0]);
    SplitCons(first, ',', tail);
    ParseSegmentsCons(first, Split(tail, ','));
  }

  /** The join of two or more numbers is the first, a comma, a space and
      the join of the others. */
  lemma JoinedFirst(pre: string, nums: seq<u16>)
    requires |nums| > 1
    ensures pre + Join(Decimals(nums), ", ") == (pre + Decimal(nums[0])) + "," + (" " + Join(Decimals(nums[1..]), ", "))
  {
    var d := Decimals(nums);
    assert d[1..] == Decimals(nums[1..]);
  }

  /** The zone column: `Outside` for the single zone 0, the joined zone
      numbers otherwise. */
  function ZoneLabel(zones: seq<u16>): string {
    if zones == [0] then "Outside" else CommaJoin(zones)
  }

  /** The label is `Outside` exactly for the zone list `[0]`: a joined list
      is empty or opens with a digit, so it never reads `Outside`. */
  lemma ZoneLabelOutside(zones: seq<u16>)
    ensures ZoneLabel(zones) == "Outside" <==> zones == [0]
  {
    if zones != [0] && |zones| > 0 {
      CommaJoinIsJoin(zones);
      JoinedDigitsFront(zones);
      assert "Outside"[0] == 'O';
    }
  }

  /** The level column: `R`, the rundown number, then the level. */
  function LevelLabel(loc: Location): string {
    "R" + Decimal(loc.rundown) + loc.level
  }

  /** `map_log_to_rows`: one row per location of `log`, in order. */
  function MapLogToRows(log: StoryLog, readIds: set<u32>): (rows: seq<Row>)
    ensures |rows| == |log.locations|
    ensures forall i :: 0 <= i < |rows| ==>
              rows[i] == Row(LevelLabel(log.locations[i]), ZoneLabel(log.locations[i].zones),
                             log.locations[i].name, log.id, log.id in readIds)
  {
    seq(|log.locations|, i requires 0 <= i < |log.locations| =>
      Row(LevelLabel(log.locations[i]), ZoneLabel(log.locations[i].zones), log.locations[i].name, log.id, log.id in readIds))
  }

  /** Whether the log of a row is shown before text filtering. */
  predicate Shown(v: MainView, log: StoryLog) {
    !(v.hideRead && log.id in v.readLogIds)
  }

  /** All rows of the logs that are shown, log by log. */
  function AllRows(v: MainView): seq<Row> {
    FlatMap(Filter(v.allLogs, (log: StoryLog) => Shown(v, log)), (log: StoryLog) => MapLogToRows(log, v.readLogIds))
  }

  /** The text filter: an empty filter keeps everything; otherwise the
      lower-cased filter must occur in the lower-cased level, name or zone,
      or in the decimal id. */
  predicate RowMatches(row: Row, filter: string) {
    var f := ToAsciiLowercase(filter);
    || filter == []
    || Contains(ToAsciiLowercase(row.level), f)
    || Contains(ToAsciiLowercase(row.name), f)
    || Contains(ToAsciiLowercase(row.zone), f)
    || Contains(Decimal(row.id), f)
  }

  /** The rows of `log_table`. */
  function FilteredRows(v: MainView): seq<Row> {
    Filter(AllRows(v), (row: Row) => RowMatches(row, v.filter))
  }

  /** A row of a log carries the log's id and whether it has been read. */
  lemma RowOfLog(log: StoryLog, readIds: set<u32>, row: Row)
    requires row in MapLogToRows(log, readIds)
    ensures row.id == log.id && row.read == (log.id in readIds)
  {
  }

  /** Before text filtering, a row is there exactly when it belongs to a
      location of a shown log. */
  lemma AllRowsMember(v: MainView, row: Row)
    ensures row in AllRows(v) <==> exists log :: log in v.allLogs && Shown(v, log) && row in MapLogToRows(log, v.readLogIds)
  {
    var p := (log: StoryLog) => Shown(v, log);
    var f := (log: StoryLog) => MapLogToRows(log, v.readLogIds);
    FlatMapFilterMember(v.allLogs, p, f, row);
    if row in AllRows(v) {
      var log :| log in v.allLogs && p(log) && row in f(log);
      assert Shown(v, log) && row in MapLogToRows(log, v.readLogIds);
    }
    if exists log :: log in v.allLogs && Shown(v, log) && row in MapLogToRows(log, v.readLogIds) {
      var log :| log in v.allLogs && Shown(v, log) && row in MapLogToRows(log, v.readLogIds);
      assert p(log) && row in f(log);
    }
  }

  /** A row is listed exactly when it belongs to a location of a shown log
      and matches the filter; with `hide_read` set, no listed row is of a
      read log. */
  lemma FilteredRowsMember(v: MainView, row: Row)
    ensures row in FilteredRows(v) <==>
              RowMatches(row, v.filter) &&
              exists log :: log in v.allLogs && Shown(v, log) && row in MapLogToRows(log, v.readLogIds)
    ensures row in FilteredRows(v) && v.hideRead ==> row.id !in v.readLogIds && !row.read
  {
    AllRowsMember(v, row);
    if row in FilteredRows(v) && v.hideRead {
      var log :| log in v.allLogs && Shown(v, log) && row in MapLogToRows(log, v.readLogIds);
      RowOfLog(log, v.readLogIds, row);
    }
  }

  /** With an empty filter every row of a shown log is listed. */
  lemma EmptyFilterKeepsAll(v: MainView)
    requires v.filter == ""
    ensures FilteredRows(v) == AllRows(v)
  {
    FilterAll(AllRows(v), (row: Row) => RowMatches(row, v.filter));
  }
}
