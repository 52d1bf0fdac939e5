/** Reconstructing the set of read story logs from the game's own session
    logs on disk: which file to read, and which ids each of its lines
    contributes. The directory is given as data: the names its listing
    yields, whether `Player.log` exists, and the lines of each file that can
    be opened. */
module LocalLogs {
  import opened Base
  import opened GameData
  import SessionFileName
  import DashCode
  import SummaryLine

  /** The in-game id a line contributes: the leftmost dash code in it, looked
      up in the catalog (`try_get_log_id`). */
  function InGameId(line: string, catalog: seq<StoryLog>): (r: Option<u32>)
    ensures r.Some? <==> DashCode.Find(line).Some? && GetIdFromName(DashCode.Find(line).value, catalog).Some?
    ensures r.Some? ==> exists k :: FirstNamedAt(catalog, DashCode.Find(line).value, k) && catalog[k].id == r.value
  {
    match DashCode.Find(line)
    case None => None
    case Some(code) => GetIdFromName(code, catalog)
  }

  /** The ids one line adds, in the order the loop body pushes them: the
      summary ids, then the in-game id. */
  function LineIds(line: string, catalog: seq<StoryLog>): (r: seq<u32>)
    ensures |r| == |SummaryLine.SummaryIds(line)| + (if InGameId(line, catalog).Some? then 1 else 0)
    ensures forall x :: x in r <==> x in SummaryLine.SummaryIds(line) || InGameId(line, catalog) == Some(x)
  {
    var summary := SummaryLine.SummaryIds(line);
    var game := InGameId(line, catalog);
    summary + if game.Some? then [game.value] else []
  }

  /** `parse_read_ids`: the ids of all lines, line by line. */
  function ParseReadIds(lines: seq<string>, catalog: seq<StoryLog>): seq<u32> {
    FlatMap(lines, (line: string) => LineIds(line, catalog))
  }

  /** Reading more lines only adds their ids after those already found. */
  lemma ParseReadIdsAppend(a: seq<string>, b: seq<string>, catalog: seq<StoryLog>)
    ensures ParseReadIds(a + b, catalog) == ParseReadIds(a, catalog) + ParseReadIds(b, catalog)
  {
    FlatMapAppend(a, b, (line: string) => LineIds(line, catalog));
  }

  /** An id is found exactly when some line contributes it. */
  lemma ParseReadIdsMember(lines: seq<string>, catalog: seq<StoryLog>, x: u32)
    ensures x in ParseReadIds(lines, catalog) <==> exists k :: 0 <= k < |lines| && x in LineIds(lines[k], catalog)
  {
    var f := (line: string) => LineIds(line, catalog);
    FlatMapMember(lines, f, x);
    assert forall k :: 0 <= k < |lines| ==> f(lines[k]) == LineIds(lines[k], catalog);
  }

  /** `HashSet::from_iter(read_ids)`: the local read set. An id is in it
      exactly when some line's summary list or in-game name yields it. */
  function ReadIdSet(lines: seq<string>, catalog: seq<StoryLog>): (r: set<u32>)
    ensures forall x :: x in r <==>
              exists k :: 0 <= k < |lines| && (x in SummaryLine.SummaryIds(lines[k]) || InGameId(lines[k], catalog) == Some(x))
  {
    forall x: u32
      ensures x in ParseReadIds(lines, catalog) <==> exists k :: 0 <= k < |lines| && x in LineIds(lines[k], catalog)
    {
      ParseReadIdsMember(lines, catalog, x);
    }
    set x | x in ParseReadIds(lines, catalog)
  }

  /** A line that matches neither rule adds nothing. */
  lemma NeitherRuleNothing(line: string, catalog: seq<StoryLog>)
    requires SummaryLine.Capture(line).None? && DashCode.Find(line).None?
    ensures LineIds(line, catalog) == []
  {
  }

  /** Names that would not make `parse_file_name` panic. */
  predicate AllWellFormed(names: seq<string>) {
    forall k :: 0 <= k < |names| ==> SessionFileName.WellFormedName(names[k])
  }

  /** `parse_file_name` of every name in the listing. */
  function Stamps(names: seq<string>): (r: seq<Option<SessionFileName.DateTime>>)
    requires AllWellFormed(names)
    ensures |r| == |names|
    ensures forall k :: 0 <= k < |names| ==> r[k] == SessionFileName.ParseFileName(names[k])
  {
    seq(|names|, (k: int) requires 0 <= k < |names| => SessionFileName.ParseFileName(names[k]))
  }

  /** Index `b` holds a newest time stamp among the first `n`, and every
      later one among them is strictly older (`max_by` keeps the last of
      equal maxima). */
  predicate NewestAmong(stamps: seq<Option<SessionFileName.DateTime>>, n: nat, b: nat) {
    && b < n <= |stamps| && stamps[b].Some?
    && (forall k :: 0 <= k < n && stamps[k].Some? ==> SessionFileName.NotAfter(stamps[k].value, stamps[b].value))
    && (forall k :: b < k < n && stamps[k].Some? ==> !SessionFileName.NotAfter(stamps[b].value, stamps[k].value))
  }

  /** The `.max_by(|(date1, _), (date2, _)| date1.cmp(date2))` over the
      first `n` parsed names: the index of the newest session log. */
  function NewestIn(stamps: seq<Option<SessionFileName.DateTime>>, n: nat): (r: Option<nat>)
    requires n <= |stamps|
    ensures r.Some? ==> NewestAmong(stamps, n, r.value)
    ensures r.None? <==> forall k :: 0 <= k < n ==> stamps[k].None?
  {
    if n == 0 then None
    else
      var best := NewestIn(stamps, n - 1);
      var last := n - 1;
      if stamps[last].None? then best
      else match best
        case None => Some(last)
        case Some(b) =>
          SessionFileName.NotAfterTotal(stamps[b].value, stamps[last].value);
          if SessionFileName.NotAfter(stamps[b].value, stamps[last].value) then
            NewerReplaces(stamps, n, b);
            Some(last)
          else
            best
  }

  /** A stamp at the end that is not older than the newest before it
      becomes the newest. */
  lemma NewerReplaces(stamps: seq<Option<SessionFileName.DateTime>>, n: nat, b: nat)
    requires 0 < n <= |stamps| && stamps[n - 1].Some?
    requires NewestAmong(stamps, n - 1, b)
    requires SessionFileName.NotAfter(stamps[b].value, stamps[n - 1].value)
    ensures NewestAmong(stamps, n, n - 1)
  {
    forall k | 0 <= k < n && stamps[k].Some?
      ensures SessionFileName.NotAfter(stamps[k].value, stamps[n - 1].value)
    {
      if k < n - 1 {
        SessionFileName.NotAfterTransitive(stamps[k].value, stamps[b].value, stamps[n - 1].value);
      } else {
        SessionFileName.NotAfterTotal(stamps[k].value, stamps[k].value);
      }
    }
  }

  /** Why no session log could be read. */
  datatype LocalError =
    | CannotReadDir(dir: string)
    | NoLogFile(dir: string)
    | CannotOpen(file: string)

  const PlayerLog: string := "Player.log"

  /** The file `get_read_log_ids_from_log_dir` reads: the newest session
      log, else `Player.log` if it exists, else an error naming the
      directory. */
  function SelectLogFile(dir: string, names: seq<string>, playerLogExists: bool): (r: Result<string, LocalError>)
    requires AllWellFormed(names)
    ensures r.Ok? && r.value != PlayerLog ==>
              exists b: nat :: NewestAmong(Stamps(names), |names|, b) && names[b] == r.value
    ensures r.Ok? && r.value == PlayerLog ==>
              (forall k :: 0 <= k < |names| ==> !SessionFileName.IsCandidate(names[k])) && playerLogExists
    ensures r.Err? <==> (forall k :: 0 <= k < |names| ==> !SessionFileName.IsCandidate(names[k])) && !playerLogExists
    ensures r.Err? ==> r.error == NoLogFile(dir)
  {
    match NewestIn(Stamps(names), |names|)
    case Some(b) =>
      SessionFileName.PlayerLogIsNotCandidate();
      Ok(names[b])
    case None => if playerLogExists then Ok(PlayerLog) else Err(NoLogFile(dir))
  }

  /** `get_read_log_ids_from_log_dir` over a directory given as data:
      `listing` is `None` when the directory cannot be read, and `files`
      holds the lines of every file that can be opened. */
  function ReadLogIdsFromLogDir(dir: string, listing: Option<seq<string>>, playerLogExists: bool,
                                files: map<string, seq<string>>, catalog: seq<StoryLog>): (r: Result<set<u32>, LocalError>)
    requires listing.Some? ==> AllWellFormed(listing.value)
    ensures listing.None? ==> r == Err(CannotReadDir(dir))
    ensures listing.Some? ==> match SelectLogFile(dir, listing.value, playerLogExists)
              case Err(e) => r == Err(e)
              case Ok(name) => if name in files then r == Ok(ReadIdSet(files[name], catalog)) else r == Err(CannotOpen(name))
  {
    match listing
    case None => Err(CannotReadDir(dir))
    case Some(names) =>
      match SelectLogFile(dir, names, playerLogExists)
      case Err(e) => Err(e)
      case Ok(name) =>
        if name in files then Ok(ReadIdSet(files[name], catalog)) else Err(CannotOpen(name))
  }
}
