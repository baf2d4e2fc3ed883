/** The check-in gate of motokross/server.py: the in-memory map from racer
    to last accepted timestamp, the `validate` test in front of every
    insert, the state effect of wiping the race, and the initialisation of
    the state and the window at startup.

    The clock (`datetime.now()`) is a parameter of the check-in, and so is
    whether the disk write of the insert succeeds. Writing the text log is
    not modelled. */
module Server {
  import opened Wrappers
  import opened Records
  import Db
  import Config

  /** `validate(user_id, timestamp, state_dict, min_lap)`: accept when MORE
      than `minLap` seconds passed since the racer's last accepted check-in;
      a racer not in the state is compared with 0. */
  function Validate(racer: RacerId, ts: int, state: map<RacerId, int>, minLap: int): (ok: bool)
    ensures racer in state ==> (ok <==> ts - state[racer] > minLap)
    ensures racer !in state ==> (ok <==> ts > minLap)
    ensures racer in state && ts == state[racer] + minLap ==> !ok
  {
    ts - Get(state, racer, 0) > minLap
  }

  /** The two replies of `mark_user`: the racer is marked, or the pause
      page naming the window in whole minutes (`min_lap // 60`). */
  datatype Reply = Marked(racer: RacerId) | Paused(racer: RacerId, minutes: int)

  /** The store and the state after one check-in, with the reply. */
  datatype Step = Step(reply: Reply, rows: seq<Row>, state: map<RacerId, int>)

  /** One call of `mark_user`, on values: when the gate accepts, the row is
      offered to `save_event` (which keeps the table as it was when the key
      is taken or the write fails) and the state is advanced to `now` in
      every case; when it rejects, nothing changes. */
  function Mark(rows: seq<Row>, state: map<RacerId, int>, minLap: int,
                racer: RacerId, controlPoint: CheckpointId, now: int, userId: UserId, diskOk: bool): (s: Step)
    ensures Validate(racer, now, state, minLap) ==>
              && s.reply == Marked(racer)
              && s.state.Keys == state.Keys + {racer} && s.state[racer] == now
              && (forall r | r in state && r != racer :: s.state[r] == state[r])
              && (s.rows == rows || s.rows == rows + [Row(racer, controlPoint, now, userId)])
              && (s.rows != rows <==> diskOk && !Db.HasKey(rows, racer, now))
    ensures !Validate(racer, now, state, minLap) ==>
              s == Step(Paused(racer, minLap / 60), rows, state)
  {
    if Validate(racer, now, state, minLap) then
      var rows' := if !diskOk || Db.HasKey(rows, racer, now) then rows else rows + [Row(racer, controlPoint, now, userId)];
      Step(Marked(racer), rows', state[racer := now])
    else
      Step(Paused(racer, minLap / 60), rows, state)
  }

  // ---------------------------------------------------------------------
  // What the gate keeps true

  /** Every stored row's racer has a state entry at least as late as it. */
  ghost predicate Consistent(rows: seq<Row>, state: map<RacerId, int>) {
    forall y | y in rows :: y.racer in state && y.ts <= state[y.racer]
  }

  /** Two stored events of one racer are more than `minLap` seconds apart. */
  ghost predicate Spaced(rows: seq<Row>, minLap: int) {
    forall a, b | a in rows && b in rows && a.racer == b.racer && a.ts < b.ts :: b.ts - a.ts > minLap
  }

  /** A check-in keeps the table key-unique. */
  lemma MarkKeepsKeys(rows: seq<Row>, state: map<RacerId, int>, minLap: int,
                      racer: RacerId, controlPoint: CheckpointId, now: int, userId: UserId, diskOk: bool)
    requires Db.KeyUnique(rows)
    ensures Db.KeyUnique(Mark(rows, state, minLap, racer, controlPoint, now, userId, diskOk).rows)
  {
    var s := Mark(rows, state, minLap, racer, controlPoint, now, userId, diskOk);
    if s.rows != rows {
      var x := Row(racer, controlPoint, now, userId);
      assert s.rows == rows + [x];
      assert x !in rows;
      assert multiset(rows + [x]) == multiset(rows) + multiset{x};
    }
  }

  /** With a non-negative window, a check-in keeps the state at least as
      late as every stored row. (A negative window would let the gate move
      a racer's state backwards.) */
  lemma MarkKeepsConsistent(rows: seq<Row>, state: map<RacerId, int>, minLap: int,
                            racer: RacerId, controlPoint: CheckpointId, now: int, userId: UserId, diskOk: bool)
    requires minLap >= 0 && Consistent(rows, state)
    ensures var s := Mark(rows, state, minLap, racer, controlPoint, now, userId, diskOk);
            Consistent(s.rows, s.state)
  {
    var s := Mark(rows, state, minLap, racer, controlPoint, now, userId, diskOk);
    forall y | y in s.rows ensures y.racer in s.state && y.ts <= s.state[y.racer] {
      if y in rows && y.racer == racer {
        assert y.ts <= state[racer];
      }
    }
  }

  /** With a non-negative window and a consistent state, a check-in keeps
      every racer's stored events more than `minLap` apart. */
  lemma MarkKeepsSpacing(rows: seq<Row>, state: map<RacerId, int>, minLap: int,
                         racer: RacerId, controlPoint: CheckpointId, now: int, userId: UserId, diskOk: bool)
    requires minLap >= 0 && Consistent(rows, state) && Spaced(rows, minLap)
    ensures Spaced(Mark(rows, state, minLap, racer, controlPoint, now, userId, diskOk).rows, minLap)
  {
    var s := Mark(rows, state, minLap, racer, controlPoint, now, userId, diskOk);
    if s.rows != rows {
      var x := Row(racer, controlPoint, now, userId);
      assert s.rows == rows + [x];
      forall b | b in rows && b.racer == racer ensures now - b.ts > minLap {
        assert b.ts <= state[racer];
      }
    }
  }

  /** Over rows whose consecutive events of one racer are at least `minLap`
      apart, the deduplication pass of `get_events` keeps every row. */
  lemma {:induction false} KeptAll(s: seq<Row>, minLap: int)
    requires forall i | 0 < i < |s| :: s[i - 1].racer == s[i].racer ==> s[i].ts - s[i - 1].ts >= minLap
    ensures Db.Kept(s, minLap) == s
    decreases |s|
  {
    if s != [] {
      var t := s[..|s| - 1];
      assert forall i | 0 <= i < |t| :: t[i] == s[i];
      KeptAll(t, minLap);
      assert s == t + [s[|s| - 1]];
    }
  }

  /** In a sequence that holds no row twice, two positions hold different
      rows. */
  lemma DistinctPositions(s: seq<Row>, i: nat, j: nat)
    requires i < j < |s| && forall v :: multiset(s)[v] <= 1
    ensures s[i] != s[j]
  {
    assert s == s[..j] + s[j..];
    assert s[i] in s[..j];
    assert s[j] in s[j..];
    assert multiset(s)[s[i]] == multiset(s[..j])[s[i]] + multiset(s[j..])[s[i]];
    assert s[i] !in s[j..];
  }

  /** In a sorted, repetition-free sequence whose racers' events are more
      than `minLap` apart, neighbours of one racer are at least `minLap`
      apart. */
  lemma AdjacentGaps(s: seq<Row>, minLap: int)
    requires SortedBy(ByRacerThenTime, s) && Db.KeyUnique(s) && Spaced(s, minLap)
    ensures forall i | 0 < i < |s| :: s[i - 1].racer == s[i].racer ==> s[i].ts - s[i - 1].ts >= minLap
  {
    forall i | 0 < i < |s| && s[i - 1].racer == s[i].racer
      ensures s[i].ts - s[i - 1].ts >= minLap
    {
      assert Le(ByRacerThenTime, s[i - 1], s[i]);
      DistinctPositions(s, i - 1, i);
      assert s[i - 1] in s && s[i] in s;
      assert s[i - 1].ts < s[i].ts;
    }
  }

  /** A key-unique table whose racers' events are more than `minLap` apart
      loses nothing in `get_events`: every row is reported. */
  lemma SpacedStoreIsNotFiltered(rows: seq<Row>, minLap: int)
    requires Db.KeyUnique(rows) && Spaced(rows, minLap)
    ensures Db.Kept(Db.AllEvents(rows), minLap) == Db.AllEvents(rows)
    ensures Db.Events(rows, minLap) == Db.GroupPoints(Db.AllEvents(rows))
  {
    var s := Db.AllEvents(rows);
    Db.KeyUniquePermutation(rows, s);
    forall y | y in s ensures y in rows {
      assert y in multiset(s);
    }
    AdjacentGaps(s, minLap);
    KeptAll(s, minLap);
  }

  /** A check-in request: racer, the checking user's control point and id,
      the clock, and whether the disk write succeeds. */
  datatype Request = Request(racer: RacerId, controlPoint: CheckpointId, now: int, userId: UserId, diskOk: bool)

  /** The table and the state after the requests, in order, from the given
      table and state: the gate keeps the key, the state and the spacing
      invariants. */
  function Run(rows: seq<Row>, state: map<RacerId, int>, minLap: int, reqs: seq<Request>): (s: (seq<Row>, map<RacerId, int>))
    requires minLap >= 0 && Db.KeyUnique(rows) && Consistent(rows, state) && Spaced(rows, minLap)
    ensures Db.KeyUnique(s.0) && Consistent(s.0, s.1) && Spaced(s.0, minLap)
    decreases |reqs|
  {
    if reqs == [] then (rows, state)
    else
      var q := reqs[0];
      var s := Mark(rows, state, minLap, q.racer, q.controlPoint, q.now, q.userId, q.diskOk);
      MarkKeepsKeys(rows, state, minLap, q.racer, q.controlPoint, q.now, q.userId, q.diskOk);
      MarkKeepsConsistent(rows, state, minLap, q.racer, q.controlPoint, q.now, q.userId, q.diskOk);
      MarkKeepsSpacing(rows, state, minLap, q.racer, q.controlPoint, q.now, q.userId, q.diskOk);
      Run(s.rows, s.state, minLap, reqs[1..])
  }

  /** From a wiped race, every row stored through the gate (with a
      non-negative window) survives the filter of the results table. */
  lemma GatedRaceIsNotFiltered(minLap: int, reqs: seq<Request>)
    requires minLap >= 0
    ensures var rows := Run([], map[], minLap, reqs).0;
            Db.Kept(Db.AllEvents(rows), minLap) == Db.AllEvents(rows)
  {
    var rows := Run([], map[], minLap, reqs).0;
    SpacedStoreIsNotFiltered(rows, minLap);
  }

  // ---------------------------------------------------------------------
  // The application

  /** The application state the handlers share: the store, the state map,
      the window in seconds, the users and the route. */
  class App {
    const db: Db.SqliteDb
    var state: map<RacerId, int>
    const minLap: int
    const users: map<UserId, User>
    const controlPoints: seq<CheckpointId>

    ghost predicate Valid()
      reads this, db
    {
      db.Valid()
    }

    /** `build_web_app`: the window is the configured minutes times 60 and
        the state is rebuilt from the table. */
    constructor (cfg: Config.RaceConfig, store: Db.SqliteDb)
      requires store.Valid()
      ensures Valid() && db == store && db.rows == store.rows
      ensures minLap == cfg.minLap * 60
      ensures state == Db.RaceState(store.rows)
      ensures Consistent(db.rows, state)
      ensures users == cfg.users && controlPoints == cfg.points
    {
      db := store;
      minLap := cfg.minLap * 60;
      state := Db.RaceState(store.rows);
      users := cfg.users;
      controlPoints := cfg.points;
    }

    /** `mark_user` for racer `racer`, scanned by the logged-in user
        `userId` at time `now`. */
    method MarkUser(racer: RacerId, userId: UserId, now: int, diskOk: bool) returns (reply: Reply)
      requires Valid() && userId in users
      modifies this, db
      ensures Valid()
      ensures Step(reply, db.rows, state)
              == Mark(old(db.rows), old(state), minLap, racer, users[userId].controlPoint, now, userId, diskOk)
    {
      var controlPoint := users[userId].controlPoint;
      if Validate(racer, now, state, minLap) {
        var _ := db.SaveEvent(racer, controlPoint, now, userId, diskOk);
        state := state[racer := now];
        reply := Marked(racer);
      } else {
        reply := Paused(racer, minLap / 60);
      }
    }

    /** The state effect of `wipe_race`: the table and the state are empty. */
    method WipeRace()
      requires Valid()
      modifies this, db
      ensures Valid() && db.rows == [] && state == map[]
      ensures Consistent(db.rows, state) && Spaced(db.rows, minLap)
    {
      db.Wipe();
      state := map[];
    }
  }
}
