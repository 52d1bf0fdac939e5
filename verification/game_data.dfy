/** The story-log catalog and the lookup of a log id by the in-game name of
    one of its locations. */
module GameData {
  import opened Base

  /** Where a story log can be found: rundown number, level letter/number
      inside the rundown, the zones, and the terminal name the game shows. */
  datatype Location = Location(rundown: u8, level: string, zones: seq<u16>, name: string)

  /** One catalog entry. The source's `read` field is skipped by the JSON
      decoder and never consulted by the modelled code, so it is not kept. */
  datatype StoryLog = StoryLog(id: u32, locations: seq<Location>)

  /** Some location of `log` is named exactly `name`. */
  predicate HasLocationNamed(log: StoryLog, name: string) {
    exists k :: 0 <= k < |log.locations| && log.locations[k].name == name
  }

  /** Entry `k` is the first catalog entry with a location named `name`. */
  predicate FirstNamedAt(logs: seq<StoryLog>, name: string, k: int) {
    && 0 <= k < |logs|
    && HasLocationNamed(logs[k], name)
    && forall j :: 0 <= j < k ==> !HasLocationNamed(logs[j], name)
  }

  /** `get_id_from_name`: the id of the first entry (in catalog order) that
      has a location whose name equals `name` exactly; `None` when no
      location anywhere has that name. */
  function GetIdFromName(name: string, logs: seq<StoryLog>): (r: Option<u32>)
    ensures r.Some? ==> exists k :: FirstNamedAt(logs, name, k) && logs[k].id == r.value
    ensures r.None? <==> forall k :: 0 <= k < |logs| ==> !HasLocationNamed(logs[k], name)
  {
    if |logs| == 0 then None
    else if HasLocationNamed(logs[0], name) then
      assert FirstNamedAt(logs, name, 0);
      Some(logs[0].id)
    else
      var r := GetIdFromName(name, logs[1..]);
      if r.Some? then
        var k :| FirstNamedAt(logs[1..], name, k) && logs[1..][k].id == r.value;
        assert FirstNamedAt(logs, name, k + 1);
        r
      else
        assert forall k :: 1 <= k < |logs| ==> logs[k] == logs[1..][k - 1];
        r
  }

  /** The lookup answers with the first match, so entries appended after a
      matching entry cannot change the answer. */
  lemma {:induction false} GetIdFromNameAppend(name: string, logs: seq<StoryLog>, more: seq<StoryLog>)
    requires GetIdFromName(name, logs).Some?
    ensures GetIdFromName(name, logs + more) == GetIdFromName(name, logs)
  {
    assert |logs| > 0;
    if !HasLocationNamed(logs[0], name) {
      assert (logs + more)[0] == logs[0];
      assert (logs + more)[1..] == logs[1..] + more;
      GetIdFromNameAppend(name, logs[1..], more);
    }
  }

  /** A catalog entry's id is found under every one of its location names,
      unless an earlier entry claims the same name. */
  lemma FoundByOwnName(logs: seq<StoryLog>, k: nat, i: nat)
    requires k < |logs| && i < |logs[k].locations|
    requires forall j :: 0 <= j < k ==> !HasLocationNamed(logs[j], logs[k].locations[i].name)
    ensures GetIdFromName(logs[k].locations[i].name, logs) == Some(logs[k].id)
  {
    var name := logs[k].locations[i].name;
    assert HasLocationNamed(logs[k], name);
    var r := GetIdFromName(name, logs);
    var k' :| FirstNamedAt(logs, name, k') && logs[k'].id == r.value;
  }
}
