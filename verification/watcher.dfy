/** The live side of the tracker (`game_log_watcher.rs`): when the game
    writes to a session log, the file is scanned for the latest story-log
    terminal name and the latest level selection, and the watcher emits
    events for them. The file system watcher and the channels are
    abstracted: a file is its name plus its lines (or `None` when it cannot
    be opened), and each step of the watch loop receives the next
    notification as a value. */
module Watcher {
  import opened Base
  import opened GameData
  import SessionFileName
  import DashCode
  import LevelLine

  /** What a scan has found so far: the id of the last terminal name seen
      and the level of the last level selection seen. */
  datatype Latest = Latest(id: Option<u32>, level: Option<string>)

  /** The body of the scanning loop for one line. A dash-code match replaces
      the id, with `None` when the name does not resolve; a level-change
      match replaces the level likewise. `resolve` stands for
      `get_level_from_local`, whose body is not part of this model. */
  function ScanLine(acc: Latest, line: string, catalog: seq<StoryLog>, resolve: string -> Option<string>): (r: Latest)
    ensures DashCode.Find(line).None? ==> r.id == acc.id
    ensures DashCode.Find(line).Some? ==> r.id == GetIdFromName(DashCode.Find(line).value, catalog)
    ensures LevelLine.Capture(line).None? ==> r.level == acc.level
    ensures LevelLine.Capture(line).Some? ==> r.level == resolve(LevelLine.Capture(line).value)
  {
    var id := match DashCode.Find(line)
      case Some(name) => GetIdFromName(name, catalog)
      case None => acc.id;
    var level := match LevelLine.Capture(line)
      case Some(token) => resolve(token)
      case None => acc.level;
    Latest(id, level)
  }

  /** The scanning loop over the lines in order, from nothing found. */
  function Scan(lines: seq<string>, catalog: seq<StoryLog>, resolve: string -> Option<string>): Latest {
    if |lines| == 0 then Latest(None, None)
    else ScanLine(Scan(lines[..|lines| - 1], catalog, resolve), lines[|lines| - 1], catalog, resolve)
  }

  /** What a line contributes to the id: the resolution of its terminal
      name, when it has one. */
  function CodeHit(catalog: seq<StoryLog>): string -> Option<Option<u32>> {
    (line: string) => match DashCode.Find(line)
      case Some(name) => Some(GetIdFromName(name, catalog))
      case None => None
  }

  /** What a line contributes to the level: the resolution of its level
      token, when it has one. */
  function LevelHit(resolve: string -> Option<string>): string -> Option<Option<string>> {
    (line: string) => match LevelLine.Capture(line)
      case Some(token) => Some(resolve(token))
      case None => None
  }

  /** The reference definition of the id a scan reports: the resolution of
      the terminal name on the last line that has one. */
  function LastCodeId(lines: seq<string>, catalog: seq<StoryLog>): Option<u32> {
    LastHit(CodeHit(catalog), lines, None)
  }

  /** The reference definition of the level a scan reports: the resolution
      of the token on the last line that selects a level. */
  function LastLevel(lines: seq<string>, resolve: string -> Option<string>): Option<string> {
    LastHit(LevelHit(resolve), lines, None)
  }

  /** The scan runs both keep-the-latest loops side by side. */
  lemma {:induction false} ScanReplays(lines: seq<string>, catalog: seq<StoryLog>, resolve: string -> Option<string>)
    ensures Scan(lines, catalog, resolve).id == Replay(CodeHit(catalog), lines, None)
    ensures Scan(lines, catalog, resolve).level == Replay(LevelHit(resolve), lines, None)
  {
    if |lines| > 0 {
      ScanReplays(lines[..|lines| - 1], catalog, resolve);
    }
  }

  /** The scan keeps the id from the LAST line with a terminal name: a later
      name that does not resolve resets it to `None`, and lines without a
      name leave it alone. */
  lemma ScanId(lines: seq<string>, catalog: seq<StoryLog>, resolve: string -> Option<string>)
    ensures Scan(lines, catalog, resolve).id == LastCodeId(lines, catalog)
  {
    ScanReplays(lines, catalog, resolve);
    ReplayIsLastHit(CodeHit(catalog), lines, None);
  }

  /** The scan keeps the level from the LAST line that selects one. */
  lemma ScanLevel(lines: seq<string>, catalog: seq<StoryLog>, resolve: string -> Option<string>)
    ensures Scan(lines, catalog, resolve).level == LastLevel(lines, resolve)
  {
    ScanReplays(lines, catalog, resolve);
    ReplayIsLastHit(LevelHit(resolve), lines, None);
  }

  /** Lines that match neither pattern change nothing. */
  lemma {:induction false} QuietLines(lines: seq<string>, more: seq<string>, catalog: seq<StoryLog>, resolve: string -> Option<string>)
    requires forall k :: 0 <= k < |more| ==> DashCode.Find(more[k]).None? && LevelLine.Capture(more[k]).None?
    ensures Scan(lines + more, catalog, resolve) == Scan(lines, catalog, resolve)
    decreases |more|
  {
    if |more| == 0 {
      assert lines + more == lines;
    } else {
      var init := more[..|more| - 1];
      assert (lines + more)[..|lines + more| - 1] == lines + init;
      assert (lines + more)[|lines + more| - 1] == more[|more| - 1];
      QuietLines(lines, init, catalog, resolve);
    }
  }

  /** A file as the watcher sees it: its file name, if the path has one, and
      its lines, if it can be opened. */
  datatype File = File(fileName: Option<string>, contents: Option<seq<string>>)

  /** `get_latest_data`: only a session log (by file name) that can be opened
      is scanned; anything else reports nothing. */
  function GetLatestData(f: File, catalog: seq<StoryLog>, resolve: string -> Option<string>): (r: Latest)
    ensures f.fileName.None? || !SessionFileName.IsCandidate(f.fileName.value) ==> r == Latest(None, None)
    ensures f.contents.None? ==> r == Latest(None, None)
    ensures f.fileName.Some? && SessionFileName.IsCandidate(f.fileName.value) && f.contents.Some? ==>
              r.id == LastCodeId(f.contents.value, catalog) && r.level == LastLevel(f.contents.value, resolve)
  {
    var check := f.fileName.Some? && SessionFileName.IsCandidate(f.fileName.value);
    if check && f.contents.Some? then
      ScanId(f.contents.value, catalog, resolve);
      ScanLevel(f.contents.value, catalog, resolve);
      Scan(f.contents.value, catalog, resolve)
    else
      Latest(None, None)
  }

  /** A file whose name is not a session log's is never read: what it holds
      makes no difference. */
  lemma NotCandidateNotRead(name: Option<string>, a: Option<seq<string>>, b: Option<seq<string>>,
                            catalog: seq<StoryLog>, resolve: string -> Option<string>)
    requires name.None? || !SessionFileName.IsCandidate(name.value)
    ensures GetLatestData(File(name, a), catalog, resolve) == GetLatestData(File(name, b), catalog, resolve)
  {
  }

  /** An empty session log reports nothing. */
  lemma EmptyFileNothing(name: string, catalog: seq<StoryLog>, resolve: string -> Option<string>)
    ensures GetLatestData(File(Some(name), Some([])), catalog, resolve) == Latest(None, None)
  {
  }

  // ---------------------------------------------------------------------
  // The watch loop
  // ---------------------------------------------------------------------

  datatype EventKind = Create | Modify | Access | Remove | Any | Other

  /** A file system notification: its kind and the files it concerns. */
  datatype FsEvent = FsEvent(kind: EventKind, paths: seq<File>)

  datatype GameEvent = LogRead(id: u32) | LevelSelected(level: string)

  /** The loop's state; the live watcher and channel of `Watching` are not
      modelled, the error of `Failed` is kept as its message. */
  datatype State = NotWatching | Watching | Failed(error: string)

  datatype Transition = Transition(state: State, events: seq<GameEvent>)

  /** The events sent for what a scan found: at most one `LogRead`, then at
      most one `LevelSelected`, each present exactly when the scan found
      that value. */
  function EventsOf(latest: Latest): (es: seq<GameEvent>)
    ensures |es| <= 2
    ensures forall i :: 0 <= i < |es| && es[i].LogRead? ==> i == 0
    ensures forall i :: 0 <= i < |es| && es[i].LevelSelected? ==> i == |es| - 1
    ensures forall x: u32 :: LogRead(x) in es <==> latest.id == Some(x)
    ensures forall l :: LevelSelected(l) in es <==> latest.level == Some(l)
  {
    var ids := if latest.id.Some? then [LogRead(latest.id.value)] else [];
    var levels := if latest.level.Some? then [LevelSelected(latest.level.value)] else [];
    ids + levels
  }

  /** Only creations and modifications are handled, and only through the
      first file they concern. */
  predicate Handled(ev: FsEvent) {
    (ev.kind == Create || ev.kind == Modify) && |ev.paths| > 0
  }

  /** What one notification makes the watcher send. */
  function EventsFor(ev: FsEvent, catalog: seq<StoryLog>, resolve: string -> Option<string>): (es: seq<GameEvent>)
    ensures !Handled(ev) ==> es == []
    ensures Handled(ev) ==> es == EventsOf(GetLatestData(ev.paths[0], catalog, resolve))
  {
    if Handled(ev) then EventsOf(GetLatestData(ev.paths[0], catalog, resolve)) else []
  }

  /** One turn of the `watch` loop. In `NotWatching`, `setup` is the outcome
      of creating the watcher and watching the path; in `Watching`, `next` is
      what the channel yields (`None` once it is closed). */
  function Step(s: State, setup: Result<(), string>, next: Option<Result<FsEvent, string>>,
                catalog: seq<StoryLog>, resolve: string -> Option<string>): (t: Transition)
    ensures s.NotWatching? ==> t.events == [] && (t.state == Watching <==> setup.Ok?)
    ensures s.NotWatching? && setup.Err? ==> t.state == Failed(setup.error)
    ensures s.Watching? ==> t.state == Watching
    ensures s.Failed? ==> t == Transition(s, [])
    ensures t.events != [] ==> s.Watching? && next.Some? && next.value.Ok? && Handled(next.value.value)
  {
    match s
    case NotWatching =>
      (match setup
       case Ok(_) => Transition(Watching, [])
       case Err(e) => Transition(Failed(e), []))
    case Watching =>
      (match next
       case Some(Ok(ev)) => Transition(Watching, EventsFor(ev, catalog, resolve))
       case _ => Transition(Watching, []))
    case Failed(_) => Transition(s, [])
  }

  /** Only the first file of a notification is looked at. */
  lemma OnlyFirstPath(kind: EventKind, p: File, rest: seq<File>, catalog: seq<StoryLog>, resolve: string -> Option<string>)
    ensures EventsFor(FsEvent(kind, [p] + rest), catalog, resolve) == EventsFor(FsEvent(kind, [p]), catalog, resolve)
  {
    assert ([p] + rest)[0] == p;
  }

  /** Several turns of the loop; all events in order. */
  function Run(s: State, setup: Result<(), string>, nexts: seq<Option<Result<FsEvent, string>>>,
               catalog: seq<StoryLog>, resolve: string -> Option<string>): Transition
    decreases |nexts|
  {
    if |nexts| == 0 then Transition(s, [])
    else
      var t := Step(s, setup, nexts[0], catalog, resolve);
      var rest := Run(t.state, setup, nexts[1..], catalog, resolve);
      Transition(rest.state, t.events + rest.events)
  }

  /** A watcher that failed to start stays failed and never reports
      anything; one that started keeps watching. */
  lemma {:induction false} RunStable(s: State, setup: Result<(), string>, nexts: seq<Option<Result<FsEvent, string>>>,
                                     catalog: seq<StoryLog>, resolve: string -> Option<string>)
    requires s.Failed? || s.Watching?
    ensures Run(s, setup, nexts, catalog, resolve).state == s
    ensures s.Failed? ==> Run(s, setup, nexts, catalog, resolve).events == []
    decreases |nexts|
  {
    if |nexts| > 0 {
      RunStable(s, setup, nexts[1..], catalog, resolve);
    }
  }
}
