/** Where the read set comes from at start-up (`get_logs` and
    `get_read_log_ids_from_play_fab`): PlayFab when asked for, the local
    session logs otherwise or when PlayFab fails. Steam, HTTP and the
    file system are parameters; the externally visible calls are recorded
    as a trace of effects so that their order can be stated. */
module Startup {
  import opened Base
  import opened GameData
  import PlayFab
  import LocalLogs

  /** The calls the start-up path makes to the outside world. */
  datatype Effect =
    | AcquireTicket     // Steam: authentication_session_ticket
    | LoginCall         // PlayFab: LoginWithSteam
    | UserDataCall      // PlayFab: GetUserData
    | CancelTicket      // Steam: cancel_authentication_ticket
    | ReadLocalDir      // the local log directory fallback

  /** Why the PlayFab path produced no ids. */
  datatype RemoteError =
    | SteamInit(message: string)
    | Call(error: PlayFab.CallError)

  /** A run of the PlayFab path: what it did and what it produced. */
  datatype RemoteRun = RemoteRun(effects: seq<Effect>, result: Result<set<u32>, RemoteError>)

  /** The three outside services the PlayFab path talks to. `steamInit` is
      the ticket bytes when Steam starts, an error message otherwise. */
  datatype Services = Services(
    steamInit: Result<seq<u8>, string>,
    loginPost: PlayFab.LoginRequest -> Result<PlayFab.ApiResponse<string>, string>,
    userDataPost: PlayFab.SessionTicket -> Result<PlayFab.ApiResponse<string>, string>)

  function CountOf(effects: seq<Effect>, e: Effect): nat {
    |set i | 0 <= i < |effects| && effects[i] == e|
  }

  /** The user-data call result: `GetUserData` only once `Login` has
      succeeded, and the login error otherwise. */
  function UserData(ticket: seq<u8>, svc: Services): (r: Result<seq<u32>, PlayFab.CallError>)
    ensures PlayFab.Login(ticket, svc.loginPost).Err? ==> r == Err(PlayFab.Login(ticket, svc.loginPost).error)
    ensures PlayFab.Login(ticket, svc.loginPost).Ok? ==> r == PlayFab.GetUserData(PlayFab.Login(ticket, svc.loginPost).value, svc.userDataPost)
  {
    match PlayFab.Login(ticket, svc.loginPost)
    case Ok(session) => PlayFab.GetUserData(session, svc.userDataPost)
    case Err(e) => Err(e)
  }

  /** The calls made once Steam is up: the ticket is acquired first and
      cancelled exactly once, as the very last call, whatever PlayFab
      answers; the user data is asked for exactly when the login succeeded,
      and right after it. The local directory is not touched. */
  function RemoteEffects(loginOk: bool): (es: seq<Effect>)
    ensures |es| >= 3 && es[0] == AcquireTicket && es[1] == LoginCall && es[|es| - 1] == CancelTicket
    ensures CountOf(es, CancelTicket) == 1
    ensures UserDataCall in es <==> loginOk
    ensures loginOk ==> es[2] == UserDataCall
    ensures ReadLocalDir !in es
  {
    var es := [AcquireTicket, LoginCall] + (if loginOk then [UserDataCall] else []) + [CancelTicket];
    assert (set i | 0 <= i < |es| && es[i] == CancelTicket) == {|es| - 1};
    es
  }

  /** `get_read_log_ids_from_play_fab`: nothing is called when Steam does
      not start; otherwise the calls of `RemoteEffects`, and the ids are
      those of the stored list exactly when both calls succeed. */
  function ReadLogIdsFromPlayFab(svc: Services): (run: RemoteRun)
    ensures svc.steamInit.Err? ==> run.effects == [] && run.result == Err(SteamInit(svc.steamInit.error))
    ensures svc.steamInit.Ok? ==> run.effects == RemoteEffects(PlayFab.Login(svc.steamInit.value, svc.loginPost).Ok?)
    ensures svc.steamInit.Ok? ==> (run.result.Ok? <==> UserData(svc.steamInit.value, svc).Ok?)
    ensures run.result.Ok? ==> forall x :: x in run.result.value <==> x in UserData(svc.steamInit.value, svc).value
  {
    match svc.steamInit
    case Err(msg) => RemoteRun([], Err(SteamInit(msg)))
    case Ok(ticket) =>
      var effects := RemoteEffects(PlayFab.Login(ticket, svc.loginPost).Ok?);
      match UserData(ticket, svc)
      case Ok(ids) => RemoteRun(effects, Ok(set x | x in ids))
      case Err(e) => RemoteRun(effects, Err(Call(e)))
  }

  /** Why start-up failed: the catalog could not be loaded, or the local
      fallback failed. */
  datatype StartupError =
    | CatalogError(message: string)
    | Local(error: LocalLogs.LocalError)

  /** The log directory as data (see `LocalLogs.ReadLogIdsFromLogDir`). */
  datatype LogDir = LogDir(dir: string, listing: Option<seq<string>>, playerLogExists: bool, files: map<string, seq<string>>)

  predicate WellFormedDir(d: LogDir) {
    d.listing.Some? ==> LocalLogs.AllWellFormed(d.listing.value)
  }

  function LocalIds(d: LogDir, catalog: seq<StoryLog>): Result<set<u32>, LocalLogs.LocalError>
    requires WellFormedDir(d)
  {
    LocalLogs.ReadLogIdsFromLogDir(d.dir, d.listing, d.playerLogExists, d.files, catalog)
  }

  datatype Loaded = Loaded(catalog: seq<StoryLog>, readIds: set<u32>)

  datatype StartupRun = StartupRun(effects: seq<Effect>, result: Result<Loaded, StartupError>)

  /** Whether `get_logs` reaches the local logs: the catalog loads, and
      PlayFab is either not asked for or fails. Only then is the directory
      read, so only then can a malformed session-log name panic. */
  predicate NeedsLocal(catalog: Result<seq<StoryLog>, string>, usePlayfab: bool, svc: Services) {
    catalog.Ok? && (!usePlayfab || ReadLogIdsFromPlayFab(svc).result.Err?)
  }

  /** `get_logs`: the catalog first (its failure is fatal, and nothing else
      is done); then, without `--playfab`, only the local logs; with it,
      PlayFab, whose success is used as is and whose failure falls back to
      the local logs. Only a catalog or local failure is fatal. */
  function GetLogs(catalog: Result<seq<StoryLog>, string>, usePlayfab: bool, svc: Services, d: LogDir): (run: StartupRun)
    requires NeedsLocal(catalog, usePlayfab, svc) ==> WellFormedDir(d)
    ensures catalog.Err? ==> run == StartupRun([], Err(CatalogError(catalog.error)))
    ensures catalog.Ok? && run.result.Ok? ==> run.result.value.catalog == catalog.value
    ensures catalog.Ok? && !usePlayfab ==> run.effects == [ReadLocalDir]
    ensures catalog.Ok? && !usePlayfab ==> (run.result.Ok? <==> LocalIds(d, catalog.value).Ok?)
    ensures catalog.Ok? && usePlayfab && ReadLogIdsFromPlayFab(svc).result.Ok? ==>
              && run.effects == ReadLogIdsFromPlayFab(svc).effects
              && ReadLocalDir !in run.effects
              && run.result == Ok(Loaded(catalog.value, ReadLogIdsFromPlayFab(svc).result.value))
    ensures catalog.Ok? && usePlayfab && ReadLogIdsFromPlayFab(svc).result.Err? ==>
              && run.effects == ReadLogIdsFromPlayFab(svc).effects + [ReadLocalDir]
              && (run.result.Ok? <==> LocalIds(d, catalog.value).Ok?)
    ensures catalog.Ok? && run.result.Ok? && ReadLocalDir in run.effects ==> run.result.value.readIds == LocalIds(d, catalog.value).value
    ensures run.result.Err? ==> catalog.Err? || (ReadLocalDir in run.effects && run.result == Err(Local(LocalIds(d, catalog.value).error)))
  {
    match catalog
    case Err(msg) => StartupRun([], Err(CatalogError(msg)))
    case Ok(logs) =>
      if !usePlayfab then FromLocal([], logs, d)
      else
        var remote := ReadLogIdsFromPlayFab(svc);
        if remote.result.Ok? then StartupRun(remote.effects, Ok(Loaded(logs, remote.result.value)))
        else FromLocal(remote.effects, logs, d)
  }

  /** The local fallback, after the calls already made. */
  function FromLocal(before: seq<Effect>, logs: seq<StoryLog>, d: LogDir): (run: StartupRun)
    requires WellFormedDir(d)
    ensures run.effects == before + [ReadLocalDir]
    ensures run.result.Ok? <==> LocalIds(d, logs).Ok?
    ensures run.result.Ok? ==> run.result.value == Loaded(logs, LocalIds(d, logs).value)
    ensures run.result.Err? ==> run.result == Err(Local(LocalIds(d, logs).error))
  {
    match LocalIds(d, logs)
    case Ok(ids) => StartupRun(before + [ReadLocalDir], Ok(Loaded(logs, ids)))
    case Err(e) => StartupRun(before + [ReadLocalDir], Err(Local(e)))
  }
}
