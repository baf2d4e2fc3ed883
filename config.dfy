/** The configuration shaping of motokross/config.py: the route split into
    checkpoint ids and column titles, the users keyed by username, and the
    defaults of `load_config`.

    Reading and parsing the JSON file is not modelled: the parsed document
    is a parameter, with every key that may be absent as an `Option`. A
    missing required key raises `KeyError`, modelled as `Err(MissingKey)`. */
module Config {
  import opened Wrappers
  import opened Records

  /** One element of the `users` array. */
  datatype UserEntry = UserEntry(username: Option<UserId>, password: Option<string>,
                                 permissions: Option<Permissions>, controlPoint: Option<CheckpointId>)

  /** One element of the `race_track` array. */
  datatype TrackEntry = TrackEntry(id: Option<CheckpointId>, title: Option<string>)

  /** The top-level object of the configuration file. */
  datatype ConfigFile = ConfigFile(race: Option<string>, minLap: Option<int>,
                                   users: Option<seq<UserEntry>>, raceTrack: Option<seq<TrackEntry>>)

  /** `KeyError(key)`. */
  datatype ConfigError = MissingKey(key: string)

  /** What `load_config` returns: (race_name, users, points, titles, min_lap). */
  datatype RaceConfig = RaceConfig(raceName: string, users: map<UserId, User>,
                                   points: seq<CheckpointId>, titles: seq<string>, minLap: int)

  // ---------------------------------------------------------------------
  // The route

  predicate CompleteTrackEntry(e: TrackEntry) {
    e.id.Some? && e.title.Some?
  }

  /** The key whose absence stops `load_track` at `e`: `id` is read first. */
  function TrackEntryError(e: TrackEntry): ConfigError {
    if e.id.None? then MissingKey("id") else MissingKey("title")
  }

  /** `load_track`: the ids and the titles of the route, in route order, as
      two lists as long as the route; or the error raised at the first
      entry lacking a key. */
  method LoadTrack(track: seq<TrackEntry>) returns (r: Result<(seq<CheckpointId>, seq<string>), ConfigError>)
    ensures r.Ok? <==> forall i | 0 <= i < |track| :: CompleteTrackEntry(track[i])
    ensures r.Ok? ==>
              && |r.value.0| == |track| && |r.value.1| == |track|
              && forall i | 0 <= i < |track| :: r.value.0[i] == track[i].id.value && r.value.1[i] == track[i].title.value
    ensures r.Err? ==>
              exists i | 0 <= i < |track| ::
                && !CompleteTrackEntry(track[i])
                && (forall k | 0 <= k < i :: CompleteTrackEntry(track[k]))
                && r.error == TrackEntryError(track[i])
  {
    var controlPoints: seq<CheckpointId> := [];
    var tableTitles: seq<string> := [];
    var n := 0;
    while n < |track|
      invariant 0 <= n <= |track|
      invariant forall k | 0 <= k < n :: CompleteTrackEntry(track[k])
      invariant |controlPoints| == n && |tableTitles| == n
      invariant forall k | 0 <= k < n :: controlPoints[k] == track[k].id.value && tableTitles[k] == track[k].title.value
    {
      var racePoint := track[n];
      if racePoint.id.None? {
        return Err(MissingKey("id"));
      }
      controlPoints := controlPoints + [racePoint.id.value];
      if racePoint.title.None? {
        return Err(MissingKey("title"));
      }
      tableTitles := tableTitles + [racePoint.title.value];
      n := n + 1;
    }
    r := Ok((controlPoints, tableTitles));
  }

  // ---------------------------------------------------------------------
  // The users

  /** The body of `load_users` for one record: `username`, `password` and
      `control_point` are required and read in that order; `permissions`
      defaults to the string "user". */
  function LoadUser(e: UserEntry): (r: Result<User, ConfigError>)
    ensures r.Ok? <==> e.username.Some? && e.password.Some? && e.controlPoint.Some?
    ensures r.Ok? ==>
              && r.value.username == e.username.value
              && r.value.password == e.password.value
              && r.value.controlPoint == e.controlPoint.value
              && r.value.permissions == (if e.permissions.Some? then e.permissions.value else PermText("user"))
    ensures r.Err? ==>
              r.error == (if e.username.None? then MissingKey("username")
                          else if e.password.None? then MissingKey("password")
                          else MissingKey("control_point"))
  {
    if e.username.None? then Err(MissingKey("username"))
    else if e.password.None? then Err(MissingKey("password"))
    else
      var permissions := e.permissions.GetOr(PermText("user"));
      if e.controlPoint.None? then Err(MissingKey("control_point"))
      else Ok(User(e.username.value, e.password.value, permissions, e.controlPoint.value))
  }

  /** `load_users` as the comprehension consumes it: one user per record, in
      order, or the error of the first record that lacks a required key. */
  function LoadUsers(entries: seq<UserEntry>): (r: Result<seq<User>, ConfigError>)
    ensures r.Ok? <==> forall i | 0 <= i < |entries| :: LoadUser(entries[i]).Ok?
    ensures r.Ok? ==> |r.value| == |entries| && forall i | 0 <= i < |entries| :: r.value[i] == LoadUser(entries[i]).value
    ensures r.Err? ==>
              exists i | 0 <= i < |entries| ::
                && (forall k | 0 <= k < i :: LoadUser(entries[k]).Ok?)
                && LoadUser(entries[i]) == Err(r.error)
    decreases |entries|
  {
    if entries == [] then Ok([])
    else
      match LoadUser(entries[0])
      case Err(e) => Err(e)
      case Ok(u) =>
        match LoadUsers(entries[1..])
        case Err(e) =>
          Err(e)
        case Ok(us) =>
          Ok([u] + us)
  }

  /** `{u.username: u for u in users}`: later users overwrite earlier ones. */
  function UserMap(users: seq<User>): (m: map<UserId, User>)
    ensures m.Keys == set u | u in users :: u.username
    ensures forall name | name in m :: m[name].username == name && m[name] in users
    decreases |users|
  {
    if users == [] then map[]
    else
      var t := users[..|users| - 1];
      var u := users[|users| - 1];
      assert users == t + [u];
      assert forall v | v in t :: v in users;
      UserMap(t)[u.username := u]
  }

  /** A user whose username no later user repeats is the one the map keeps. */
  lemma {:induction false} UserMapLastWins(users: seq<User>, i: nat)
    requires i < |users|
    requires forall j | i < j < |users| :: users[j].username != users[i].username
    ensures UserMap(users)[users[i].username] == users[i]
    decreases |users|
  {
    var t := users[..|users| - 1];
    if i < |users| - 1 {
      UserMapLastWins(t, i);
    }
  }

  // ---------------------------------------------------------------------
  // The whole configuration

  /** `load_config` on a parsed file: `race` defaults to "race", `min_lap`
      to 5, the user list and the route to empty. The users are loaded
      before the route, so a user error is the one reported when both are
      malformed. */
  method LoadConfig(file: ConfigFile) returns (r: Result<RaceConfig, ConfigError>)
    ensures var users := LoadUsers(file.users.GetOr([]));
            var track := file.raceTrack.GetOr([]);
            && (users.Err? ==> r == Err(users.error))
            && (users.Ok? ==>
                  && (r.Ok? <==> forall i | 0 <= i < |track| :: CompleteTrackEntry(track[i]))
                  && (r.Err? ==>
                        exists i | 0 <= i < |track| ::
                          && !CompleteTrackEntry(track[i])
                          && (forall k | 0 <= k < i :: CompleteTrackEntry(track[k]))
                          && r.error == TrackEntryError(track[i]))
                  && (r.Ok? ==>
                        && r.value.raceName == file.race.GetOr("race")
                        && r.value.minLap == file.minLap.GetOr(5)
                        && r.value.users == UserMap(users.value)
                        && |r.value.points| == |track| && |r.value.titles| == |track|
                        && forall i | 0 <= i < |track| ::
                             r.value.points[i] == track[i].id.value && r.value.titles[i] == track[i].title.value))
  {
    var raceName := file.race.GetOr("race");
    var minLap := file.minLap.GetOr(5);
    var loaded := LoadUsers(file.users.GetOr([]));
    if loaded.Err? {
      return Err(loaded.error);
    }
    var users := UserMap(loaded.value);
    var track := LoadTrack(file.raceTrack.GetOr([]));
    if track.Err? {
      return Err(track.error);
    }
    r := Ok(RaceConfig(raceName, users, track.value.0, track.value.1, minLap));
  }
}
