/** The command line (`get_options` in `main.rs`): the user data path is
    the argument after the first `--data-path`, or else the one the game's
    registry entry gives; `--playfab` anywhere turns the remote read set
    on. The registry lookup is a parameter. */
module Cli {
  import opened Base

  const DataPathFlag: string := "--data-path"
  const PlayfabFlag: string := "--playfab"

  /** The context `get_options` adds to a failed lookup. */
  const PathContext: string := "Couldn't get GTFO user data path"

  /** `Options`. */
  datatype Options = Options(gtfoPath: string, usePlayfab: bool)

  /** An error with context, as `with_context` builds it: the context
      message over the lookup's own error. */
  datatype OptionsError = OptionsError(context: string, cause: string)

  /** `iter().position(|s| s == flag)`: the index of the first argument
      equal to `flag`. */
  function Position(args: seq<string>, flag: string): (r: Option<nat>)
    ensures r.Some? ==> r.value < |args| && args[r.value] == flag && flag !in args[..r.value]
    ensures r.None? <==> flag !in args
  {
    if |args| == 0 then None
    else if args[0] == flag then Some(0)
    else
      var r := Position(args[1..], flag);
      assert r.Some? ==> args[..r.value + 1] == [args[0]] + args[1..][..r.value];
      if r.None? then None else Some(r.value + 1)
  }

  /** `.and_then(|i| args.get(i + 1))`: the argument after the first
      `--data-path`, if the flag is there and is not the last argument.
      Whatever that argument is, a flag included, it is taken verbatim. */
  function DataPathArg(args: seq<string>): Option<string> {
    match Position(args, DataPathFlag)
    case None => None
    case Some(i) => if i + 1 < |args| then Some(args[i + 1]) else None
  }

  /** `get_options`: the registry lookup `userDataPath` is consulted only
      when the command line names no path, and its failure is the only
      error, wrapped in `PathContext`. */
  function GetOptions(args: seq<string>, userDataPath: Result<string, string>): (r: Result<Options, OptionsError>)
    ensures r.Ok? <==> DataPathArg(args).Some? || userDataPath.Ok?
    ensures DataPathArg(args).Some? ==> r.Ok? && r.value.gtfoPath == DataPathArg(args).value
    ensures DataPathArg(args).None? && userDataPath.Ok? ==> r.Ok? && r.value.gtfoPath == userDataPath.value
    ensures r.Err? ==> r.error == OptionsError(PathContext, userDataPath.error)
    ensures r.Ok? ==> (r.value.usePlayfab <==> exists i :: 0 <= i < |args| && args[i] == PlayfabFlag)
  {
    var path := match DataPathArg(args)
      case Some(p) => Ok(p)
      case None =>
        match userDataPath
        case Ok(p) => Ok(p)
        case Err(e) => Err(OptionsError(PathContext, e));
    match path
    case Err(e) => Err(e)
    case Ok(p) => Ok(Options(p, PlayfabFlag in args))
  }

  /** The argument after the first `--data-path` is the path; later
      occurrences of the flag do not matter. */
  lemma DataPathAfterFirst(pre: seq<string>, path: string, post: seq<string>)
    requires DataPathFlag !in pre
    ensures DataPathArg(pre + [DataPathFlag, path] + post) == Some(path)
  {
    var args := pre + [DataPathFlag, path] + post;
    assert args[..|pre|] == pre;
    assert args[|pre|] == DataPathFlag;
    FirstAt(args, DataPathFlag, |pre|);
  }

  /** A `--data-path` with nothing after it names no path. */
  lemma DataPathLast(pre: seq<string>)
    requires DataPathFlag !in pre
    ensures DataPathArg(pre + [DataPathFlag]) == None
  {
    var args := pre + [DataPathFlag];
    assert args[..|pre|] == pre;
    FirstAt(args, DataPathFlag, |pre|);
  }

  /** Without the flag there is no path on the command line. */
  lemma NoDataPathFlag(args: seq<string>)
    requires DataPathFlag !in args
    ensures DataPathArg(args) == None
  {
  }

  /** The position is the first index holding `flag`. */
  lemma FirstAt(args: seq<string>, flag: string, i: nat)
    requires i < |args| && args[i] == flag && flag !in args[..i]
    ensures Position(args, flag) == Some(i)
  {
    assert flag in args;
  }

  /** The lookup is not consulted when the command line names a path:
      any lookup result, failures included, gives the same options. */
  lemma LookupUnused(args: seq<string>, a: Result<string, string>, b: Result<string, string>)
    requires DataPathArg(args).Some?
    ensures GetOptions(args, a) == GetOptions(args, b)
  {
  }

  /** The path argument is not checked for being a flag:
      `--data-path --playfab` makes `--playfab` the path and, being
      present, also turns PlayFab on. */
  lemma FlagTakenAsPath(pre: seq<string>, post: seq<string>, lookup: Result<string, string>)
    requires DataPathFlag !in pre
    ensures GetOptions(pre + [DataPathFlag, PlayfabFlag] + post, lookup) == Ok(Options(PlayfabFlag, true))
  {
    var args := pre + [DataPathFlag, PlayfabFlag] + post;
    DataPathAfterFirst(pre, PlayfabFlag, post);
    assert args[|pre| + 1] == PlayfabFlag;
  }
}
