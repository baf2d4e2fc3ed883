/** The records of motokross/db.py (its namedtuples and the rows of the
    RACE table) and the orderings its SQL queries ask for.

    Racer ids are integers here, as in the table's `racer_id INT` column.
    The check-in handler keys its in-memory state by the racer id taken
    from the URL, which is a string, while the state rebuilt from the
    table has integer keys; this model uses a single id type throughout. */
module Records {

  type RacerId = int
  type CheckpointId = string
  type UserId = string

  /** One row of the RACE table: (racer_id, kpp_id, timestamp, user). */
  datatype Row = Row(racer: RacerId, kp: CheckpointId, ts: int, user: UserId)

  /** `RacePoint(timestamp, control_point)`: one event of a racer's history. */
  datatype RacePoint = RacePoint(ts: int, kp: CheckpointId)

  /** `KPPoint(timestamp, racer)`: one passage at a given checkpoint. */
  datatype KPPoint = KPPoint(ts: int, racer: RacerId)

  /** A user's permissions: the configuration may give a list of names, or a
      single string (the default is the string "user"). */
  datatype Permissions = PermText(text: string) | PermList(names: seq<string>)

  /** `User(username, password, permissions, control_point)`. */
  datatype User = User(username: UserId, password: string, permissions: Permissions, controlPoint: CheckpointId)

  /** The three `ORDER BY` clauses used by the queries. */
  datatype Order =
    | ByRacerThenTime   // ORDER BY racer_id, timestamp
    | ByTime            // ORDER BY timestamp
    | ByTimeDesc        // ORDER BY timestamp DESC

  /** `a` may come before `b` under the given ordering. */
  predicate Le(o: Order, a: Row, b: Row) {
    match o
    case ByRacerThenTime => a.racer < b.racer || (a.racer == b.racer && a.ts <= b.ts)
    case ByTime => a.ts <= b.ts
    case ByTimeDesc => a.ts >= b.ts
  }

  predicate SortedBy(o: Order, s: seq<Row>) {
    forall i, j | 0 <= i < j < |s| :: Le(o, s[i], s[j])
  }

  /** Each ordering is total: of two rows, one may come first. */
  lemma LeTotal(o: Order, a: Row, b: Row)
    ensures Le(o, a, b) || Le(o, b, a)
  {
  }

  lemma LeTrans(o: Order, a: Row, b: Row, c: Row)
    requires Le(o, a, b) && Le(o, b, c)
    ensures Le(o, a, c)
  {
  }

  /** A prefix of a sorted sequence is sorted. */
  lemma SortedPrefix(o: Order, s: seq<Row>, n: nat)
    requires SortedBy(o, s) && n <= |s|
    ensures SortedBy(o, s[..n])
  {
    var t := s[..n];
    forall i, j | 0 <= i < j < |t| ensures Le(o, t[i], t[j]) {
      assert t[i] == s[i] && t[j] == s[j];
    }
  }

  /** A row that may precede every element of a sorted sequence may be put
      in front of it. */
  lemma SortedCons(o: Order, x: Row, s: seq<Row>)
    requires SortedBy(o, s)
    requires forall j | 0 <= j < |s| :: Le(o, x, s[j])
    ensures SortedBy(o, [x] + s)
  {
    var r := [x] + s;
    forall i, j | 0 <= i < j < |r| ensures Le(o, r[i], r[j]) {
      if i > 0 { assert r[i] == s[i - 1] && r[j] == s[j - 1]; }
      else { assert r[j] == s[j - 1]; }
    }
  }

  /** Puts `x` into its place in a sorted sequence. */
  function Insert(o: Order, x: Row, s: seq<Row>): (r: seq<Row>)
    requires SortedBy(o, s)
    ensures SortedBy(o, r)
    ensures multiset(r) == multiset(s) + multiset{x}
    ensures |r| == |s| + 1
  {
    if s == [] then [x]
    else if Le(o, x, s[0]) then
      InsertFront(o, x, s);
      [x] + s
    else
      var t := Insert(o, x, s[1..]);
      InsertBehind(o, x, s, t);
      [s[0]] + t
  }

  lemma InsertFront(o: Order, x: Row, s: seq<Row>)
    requires SortedBy(o, s) && s != [] && Le(o, x, s[0])
    ensures SortedBy(o, [x] + s)
  {
    forall j | 0 <= j < |s| ensures Le(o, x, s[j]) {
      if j > 0 { LeTrans(o, x, s[0], s[j]); }
    }
    SortedCons(o, x, s);
  }

  lemma InsertBehind(o: Order, x: Row, s: seq<Row>, t: seq<Row>)
    requires SortedBy(o, s) && s != [] && !Le(o, x, s[0])
    requires SortedBy(o, t) && multiset(t) == multiset(s[1..]) + multiset{x}
    ensures SortedBy(o, [s[0]] + t)
    ensures multiset([s[0]] + t) == multiset(s) + multiset{x}
  {
    assert s == [s[0]] + s[1..];
    forall j | 0 <= j < |t| ensures Le(o, s[0], t[j]) {
      assert t[j] in multiset(t);
      if t[j] == x {
        LeTotal(o, x, s[0]);
      } else {
        assert t[j] in multiset(s[1..]);
        var k :| 0 <= k < |s[1..]| && s[1..][k] == t[j];
        assert s[k + 1] == t[j];
      }
    }
    SortedCons(o, s[0], t);
  }

  /** The result of a query with the given `ORDER BY`: a sorted permutation
      of the table's rows. Which of several rows that tie comes first is not
      fixed by SQL; this is one admissible choice. */
  function Sort(o: Order, s: seq<Row>): (r: seq<Row>)
    ensures SortedBy(o, r)
    ensures multiset(r) == multiset(s)
    ensures |r| == |s|
  {
    if s == [] then []
    else
      assert s == [s[0]] + s[1..];
      Insert(o, s[0], Sort(o, s[1..]))
  }
}
