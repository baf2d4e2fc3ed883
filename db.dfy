/** The event store of motokross/db.py: the RACE table as an in-memory
    sequence of rows, its queries, and the report-time deduplication pass
    `get_events`. */
module Db {
  import opened Wrappers
  import opened Records

  /** The primary key (racer_id, timestamp): rows that agree on it are the
      same row, and no row is stored twice. */
  ghost predicate KeyUnique(rows: seq<Row>) {
    && (forall a, b | a in rows && b in rows && a.racer == b.racer && a.ts == b.ts :: a == b)
    && (forall v :: multiset(rows)[v] <= 1)
  }

  /** Some row already holds the key (racer, ts). */
  predicate HasKey(rows: seq<Row>, racer: RacerId, ts: int) {
    exists i | 0 <= i < |rows| :: rows[i].racer == racer && rows[i].ts == ts
  }

  /** The key invariant depends only on which rows are stored. */
  lemma KeyUniquePermutation(a: seq<Row>, b: seq<Row>)
    requires multiset(a) == multiset(b) && KeyUnique(a)
    ensures KeyUnique(b)
  {
    forall x ensures x in b <==> x in a {
      assert x in b <==> x in multiset(b);
      assert x in a <==> x in multiset(a);
    }
  }

  lemma KeyUniquePrefix(s: seq<Row>, n: nat)
    requires n <= |s| && KeyUnique(s)
    ensures KeyUnique(s[..n])
  {
    assert s == s[..n] + s[n..];
    forall v ensures multiset(s[..n])[v] <= 1 {
      assert multiset(s)[v] == multiset(s[..n])[v] + multiset(s[n..])[v];
    }
    forall x | x in s[..n] ensures x in s {
    }
  }

  /** The set of racers that have at least one row. */
  function Racers(k: seq<Row>): set<RacerId> {
    set x | x in k :: x.racer
  }

  lemma RacersSnoc(k: seq<Row>, x: Row)
    ensures Racers(k + [x]) == Racers(k) + {x.racer}
  {
    forall r | r in Racers(k) ensures r in Racers(k + [x]) {
      var y :| y in k && y.racer == r;
      assert y in k + [x];
    }
    assert x in k + [x];
  }

  // ---------------------------------------------------------------------
  // The table

  class SqliteDb {
    var rows: seq<Row>

    ghost predicate Valid()
      reads this
    {
      KeyUnique(rows)
    }

    /** Opens the table with the rows already on disk (none for a new
        database file). */
    constructor (existing: seq<Row>)
      requires KeyUnique(existing)
      ensures Valid() && rows == existing
    {
      rows := existing;
    }

    /** `save_event`: INSERT one row. The insert fails when the key is
        taken or the disk write fails (`diskOk` false); the failure is
        logged (`logged`) and swallowed, and the table is left as it was. */
    method SaveEvent(racer: RacerId, controlPoint: CheckpointId, timestamp: int, userId: UserId, diskOk: bool)
      returns (logged: bool)
      requires Valid()
      modifies this
      ensures Valid()
      ensures logged <==> !diskOk || HasKey(old(rows), racer, timestamp)
      ensures rows == if logged then old(rows) else old(rows) + [Row(racer, controlPoint, timestamp, userId)]
    {
      if !diskOk || HasKey(rows, racer, timestamp) {
        logged := true;
      } else {
        var x := Row(racer, controlPoint, timestamp, userId);
        assert x !in rows;
        assert multiset(rows + [x]) == multiset(rows) + multiset{x};
        rows := rows + [x];
        logged := false;
      }
    }

    /** `get_events(min_lap)`: the rows in (racer, timestamp) order, passed
        through the deduplication filter and grouped per racer. `order` is
        the key order of the resulting dictionary (insertion order). */
    method GetEvents(minLap: int) returns (result: map<RacerId, seq<RacePoint>>, order: seq<RacerId>)
      requires Valid()
      ensures result == Events(rows, minLap)
      ensures result.Keys == Racers(rows)
      ensures order == FirstSeen(AllEvents(rows))
      ensures forall i, j | 0 <= i < j < |order| :: order[i] < order[j]
      ensures forall r :: r in result <==> r in order
    {
      var s := AllEvents(rows);
      result, order := FilterRows(s, minLap);
      EventsKeyOrder(rows, minLap);
    }

    /** `wipe`: DELETE FROM RACE. */
    method Wipe()
      requires Valid()
      modifies this
      ensures Valid() && rows == []
    {
      rows := [];
    }
  }

  // ---------------------------------------------------------------------
  // Queries

  /** ALL_EVENTS: every row, ordered by racer id and then timestamp. */
  function AllEvents(rows: seq<Row>): (s: seq<Row>)
    ensures SortedBy(ByRacerThenTime, s)
    ensures multiset(s) == multiset(rows)
  {
    Sort(ByRacerThenTime, rows)
  }

  /** `get_raw_events`: every row once, with all four fields, in
      non-decreasing timestamp order. */
  function RawEvents(rows: seq<Row>): (s: seq<Row>)
    ensures forall i, j | 0 <= i < j < |s| :: s[i].ts <= s[j].ts
    ensures multiset(s) == multiset(rows)
  {
    var r := Sort(ByTime, rows);
    assert forall i, j | 0 <= i < j < |r| :: Le(ByTime, r[i], r[j]);
    r
  }

  /** The rows whose kpp_id is `kp`, in table order. */
  function WithCheckpoint(rows: seq<Row>, kp: CheckpointId): (r: seq<Row>)
    ensures forall x :: x in r <==> x in rows && x.kp == kp
  {
    if rows == [] then []
    else (if rows[0].kp == kp then [rows[0]] else []) + WithCheckpoint(rows[1..], kp)
  }

  /** `get_kp_events(kp)`: one (timestamp, racer) pair per row at checkpoint
      `kp`, newest first. */
  function KpEvents(rows: seq<Row>, kp: CheckpointId): (r: seq<KPPoint>)
    ensures |r| == |WithCheckpoint(rows, kp)|
    ensures forall i, j | 0 <= i < j < |r| :: r[i].ts >= r[j].ts
    ensures forall i | 0 <= i < |r| :: PassageOf(rows, kp, r[i])
    ensures forall x | x in rows && x.kp == kp :: KPPoint(x.ts, x.racer) in r
  {
    var sorted := Sort(ByTimeDesc, WithCheckpoint(rows, kp));
    var r := Passages(sorted);
    PassagesOrder(sorted);
    PassagesFrom(rows, kp, sorted);
    PassagesCover(rows, kp, sorted);
    r
  }

  /** The (timestamp, racer) columns of each row. */
  function Passages(s: seq<Row>): (r: seq<KPPoint>)
    ensures |r| == |s|
    ensures forall i | 0 <= i < |s| :: r[i] == KPPoint(s[i].ts, s[i].racer)
  {
    seq(|s|, i requires 0 <= i < |s| => KPPoint(s[i].ts, s[i].racer))
  }

  lemma PassagesOrder(s: seq<Row>)
    requires SortedBy(ByTimeDesc, s)
    ensures forall i, j | 0 <= i < j < |s| :: Passages(s)[i].ts >= Passages(s)[j].ts
  {
    forall i, j | 0 <= i < j < |s| ensures Passages(s)[i].ts >= Passages(s)[j].ts {
      assert Le(ByTimeDesc, s[i], s[j]);
    }
  }

  /** `q` is the (timestamp, racer) of some row at checkpoint `kp`. */
  predicate PassageOf(rows: seq<Row>, kp: CheckpointId, q: KPPoint) {
    exists x | x in rows :: x.kp == kp && x.ts == q.ts && x.racer == q.racer
  }

  lemma PassagesFrom(rows: seq<Row>, kp: CheckpointId, sorted: seq<Row>)
    requires multiset(sorted) == multiset(WithCheckpoint(rows, kp))
    ensures forall i | 0 <= i < |sorted| :: PassageOf(rows, kp, Passages(sorted)[i])
  {
    forall i | 0 <= i < |sorted| ensures PassageOf(rows, kp, Passages(sorted)[i]) {
      var x := sorted[i];
      assert x in multiset(sorted);
      assert x in WithCheckpoint(rows, kp);
      assert x in rows && x.kp == kp && x.ts == Passages(sorted)[i].ts && x.racer == Passages(sorted)[i].racer;
    }
  }

  lemma PassagesCover(rows: seq<Row>, kp: CheckpointId, sorted: seq<Row>)
    requires multiset(sorted) == multiset(WithCheckpoint(rows, kp))
    ensures forall x | x in rows && x.kp == kp :: KPPoint(x.ts, x.racer) in Passages(sorted)
  {
    var r := Passages(sorted);
    forall x | x in rows && x.kp == kp ensures KPPoint(x.ts, x.racer) in r {
      assert x in WithCheckpoint(rows, kp);
      assert x in multiset(sorted);
      var i :| 0 <= i < |sorted| && sorted[i] == x;
      assert r[i] == KPPoint(x.ts, x.racer);
    }
  }

  // ---------------------------------------------------------------------
  // The report-time deduplication pass

  /** motokross/db.py `validate`: keep an event when the racer changed, when
      there is no previous event, or when at least `minLap` seconds passed
      since the previous kept one. */
  function Validate(prevId: Option<RacerId>, prevTs: Option<int>, racer: RacerId, ts: int, minLap: int): (keep: bool)
    ensures prevId != Some(racer) ==> keep
    ensures prevTs.None? ==> keep
    ensures prevId == Some(racer) && prevTs.Some? ==> (keep <==> prevTs.value + minLap <= ts)
  {
    prevId != Some(racer) || prevTs.None? || ts - prevTs.value >= minLap
  }

  function LastId(k: seq<Row>): Option<RacerId> {
    if k == [] then None else Some(k[|k| - 1].racer)
  }

  function LastTs(k: seq<Row>): Option<int> {
    if k == [] then None else Some(k[|k| - 1].ts)
  }

  /** The rows the loop of `get_events` keeps, in input order: a row is
      compared with the last row KEPT so far (a dropped row does not move
      the baseline). */
  function Kept(s: seq<Row>, minLap: int): (k: seq<Row>)
    ensures |k| <= |s|
    ensures s != [] ==> k != [] && k[0] == s[0]
    decreases |s|
  {
    if s == [] then []
    else
      var k := Kept(s[..|s| - 1], minLap);
      var x := s[|s| - 1];
      if Validate(LastId(k), LastTs(k), x.racer, x.ts, minLap) then k + [x] else k
  }

  /** The events of racer `r` in `k`, in order, as (timestamp, checkpoint). */
  function Points(k: seq<Row>, r: RacerId): seq<RacePoint>
    decreases |k|
  {
    if k == [] then []
    else
      var x := k[|k| - 1];
      Points(k[..|k| - 1], r) + (if x.racer == r then [RacePoint(x.ts, x.kp)] else [])
  }

  /** The per-racer lists the `defaultdict` of `get_events` ends up with. */
  function GroupPoints(k: seq<Row>): map<RacerId, seq<RacePoint>> {
    map r | r in Racers(k) :: Points(k, r)
  }

  /** The racers of `s` in order of first appearance. */
  function FirstSeen(s: seq<Row>): seq<RacerId>
    decreases |s|
  {
    if s == [] then []
    else
      var t := s[..|s| - 1];
      if s[|s| - 1].racer in Racers(t) then FirstSeen(t) else FirstSeen(t) + [s[|s| - 1].racer]
  }

  /** What `get_events(min_lap)` returns. */
  function Events(rows: seq<Row>, minLap: int): map<RacerId, seq<RacePoint>> {
    GroupPoints(Kept(AllEvents(rows), minLap))
  }

  /** `a` is `b` with some elements left out. */
  predicate Subseq(a: seq<RacePoint>, b: seq<RacePoint>)
    decreases |b|
  {
    if b == [] then a == []
    else
      (a != [] && a[|a| - 1] == b[|b| - 1] && Subseq(a[..|a| - 1], b[..|b| - 1]))
      || Subseq(a, b[..|b| - 1])
  }

  /** The loop of `get_events` over the fetched rows: `prev_id`/`prev_ts`
      hold the last kept row; kept rows are appended to their racer's list
      of the `defaultdict`, whose key order is returned in `order`. */
  method FilterRows(s: seq<Row>, minLap: int) returns (result: map<RacerId, seq<RacePoint>>, order: seq<RacerId>)
    ensures result == GroupPoints(Kept(s, minLap))
    ensures order == FirstSeen(s)
  {
    result := map[];
    order := [];
    var prevId: Option<RacerId> := None;
    var prevTs: Option<int> := None;
    ghost var kept: seq<Row> := [];
    var i := 0;
    while i < |s|
      invariant 0 <= i <= |s|
      invariant FilterInv(s, minLap, i, kept, result, order, prevId, prevTs)
    {
      kept, result, order, prevId, prevTs := FilterOne(s, minLap, i, kept, result, order, prevId, prevTs);
      i := i + 1;
    }
    assert s[..|s|] == s;
  }

  /** One iteration of the loop of `get_events`: row `s[i]` is compared
      with the last kept row and, when kept, appended to its racer's list. */
  method FilterOne(s: seq<Row>, minLap: int, i: nat, ghost kept: seq<Row>,
                   result: map<RacerId, seq<RacePoint>>, order: seq<RacerId>,
                   prevId: Option<RacerId>, prevTs: Option<int>)
    returns (ghost kept': seq<Row>, result': map<RacerId, seq<RacePoint>>, order': seq<RacerId>,
             prevId': Option<RacerId>, prevTs': Option<int>)
    requires i < |s| && FilterInv(s, minLap, i, kept, result, order, prevId, prevTs)
    ensures FilterInv(s, minLap, i + 1, kept', result', order', prevId', prevTs')
  {
    var x := s[i];
    kept', result', order', prevId', prevTs' := kept, result, order, prevId, prevTs;
    if Validate(prevId, prevTs, x.racer, x.ts, minLap) {
      if x.racer !in result {
        order' := order + [x.racer];
      }
      result' := result[x.racer := Get(result, x.racer, []) + [RacePoint(x.ts, x.kp)]];
      prevId' := Some(x.racer);
      prevTs' := Some(x.ts);
      kept' := kept + [x];
    }
    FilterStep(s, minLap, i, kept, result, order, kept', result', order', prevId', prevTs');
  }

  // --- helper facts for the loop of GetEvents

  /** The invariant of the loop of `get_events` after `i` rows. */
  ghost predicate FilterInv(s: seq<Row>, minLap: int, i: nat, kept: seq<Row>,
                            result: map<RacerId, seq<RacePoint>>, order: seq<RacerId>,
                            prevId: Option<RacerId>, prevTs: Option<int>) {
    && i <= |s| && kept == Kept(s[..i], minLap) && result == GroupPoints(kept) && order == FirstSeen(s[..i])
    && prevId == LastId(kept) && prevTs == LastTs(kept)
  }

  lemma GroupPointsSnoc(k: seq<Row>, x: Row)
    ensures GroupPoints(k + [x]) ==
            GroupPoints(k)[x.racer := Get(GroupPoints(k), x.racer, []) + [RacePoint(x.ts, x.kp)]]
  {
    var k' := k + [x];
    var pt := RacePoint(x.ts, x.kp);
    assert k'[..|k'| - 1] == k;
    RacersSnoc(k, x);
    PointsEmpty(k, x.racer);
    var g := GroupPoints(k);
    var g' := GroupPoints(k');
    var u := g[x.racer := Get(g, x.racer, []) + [pt]];
    assert g'.Keys == u.Keys;
    forall r | r in u ensures g'[r] == u[r] {
      assert Points(k', r) == Points(k, r) + (if x.racer == r then [pt] else []);
    }
  }

  /** One iteration of the loop of `get_events` keeps the loop's
      invariant. */
  lemma FilterStep(s: seq<Row>, minLap: int, i: nat, kept: seq<Row>,
                   result: map<RacerId, seq<RacePoint>>, order: seq<RacerId>,
                   kept': seq<Row>, result': map<RacerId, seq<RacePoint>>, order': seq<RacerId>,
                   prevId': Option<RacerId>, prevTs': Option<int>)
    requires i < |s| && FilterInv(s, minLap, i, kept, result, order, LastId(kept), LastTs(kept))
    requires var x := s[i];
             var keep := Validate(LastId(kept), LastTs(kept), x.racer, x.ts, minLap);
             && kept' == (if keep then kept + [x] else kept)
             && result' == (if keep then result[x.racer := Get(result, x.racer, []) + [RacePoint(x.ts, x.kp)]] else result)
             && order' == (if keep && x.racer !in result then order + [x.racer] else order)
    requires prevId' == LastId(kept') && prevTs' == LastTs(kept')
    ensures FilterInv(s, minLap, i + 1, kept', result', order', prevId', prevTs')
  {
    var x := s[i];
    assert s[..i + 1] == s[..i] + [x];
    assert s[..i + 1][..i] == s[..i];
    GroupPointsSnoc(kept, x);
    FirstSeenStep(s, minLap, i, kept);
    assert result.Keys == Racers(kept);
  }

  /** A racer seen for the first time is always kept, and becomes a new key
      of the dictionary; a racer seen before is already a key. */
  lemma FirstSeenStep(s: seq<Row>, minLap: int, i: nat, kept: seq<Row>)
    requires i < |s| && kept == Kept(s[..i], minLap)
    ensures var x := s[i];
            var keep := Validate(LastId(kept), LastTs(kept), x.racer, x.ts, minLap);
            FirstSeen(s[..i + 1]) ==
              (if keep && x.racer !in Racers(kept) then FirstSeen(s[..i]) + [x.racer] else FirstSeen(s[..i]))
  {
    var x := s[i];
    var t := s[..i];
    FirstSeenSnoc(s, i);
    KeptRacers(t, minLap);
    if x.racer !in Racers(t) && kept != [] {
      assert kept[|kept| - 1] in kept;
    }
  }

  lemma FirstSeenSnoc(s: seq<Row>, i: nat)
    requires i < |s|
    ensures FirstSeen(s[..i + 1]) ==
              if s[i].racer in Racers(s[..i]) then FirstSeen(s[..i]) else FirstSeen(s[..i]) + [s[i].racer]
  {
    assert s[..i + 1][..i] == s[..i];
  }

  /** The key order of `get_events`' dictionary is ascending racer id. */
  lemma EventsKeyOrder(rows: seq<Row>, minLap: int)
    ensures Events(rows, minLap).Keys == Racers(rows)
    ensures forall i, j | 0 <= i < j < |FirstSeen(AllEvents(rows))| ::
              FirstSeen(AllEvents(rows))[i] < FirstSeen(AllEvents(rows))[j]
    ensures forall r :: r in Events(rows, minLap) <==> r in FirstSeen(AllEvents(rows))
  {
    var s := AllEvents(rows);
    FirstSeenSorted(s);
    FirstSeenRacers(s);
    KeptRacers(s, minLap);
    RacersPermutation(rows, s);
  }

  /** A racer has no points exactly when it has no rows. */
  lemma {:induction false} PointsEmpty(k: seq<Row>, r: RacerId)
    ensures Points(k, r) == [] <==> r !in Racers(k)
    decreases |k|
  {
    if k != [] {
      var t := k[..|k| - 1];
      var x := k[|k| - 1];
      assert k == t + [x];
      RacersSnoc(t, x);
      PointsEmpty(t, r);
    }
  }

  lemma {:induction false} FirstSeenRacers(s: seq<Row>)
    ensures forall r :: r in FirstSeen(s) <==> r in Racers(s)
    decreases |s|
  {
    if s != [] {
      var t := s[..|s| - 1];
      assert s == t + [s[|s| - 1]];
      RacersSnoc(t, s[|s| - 1]);
      FirstSeenRacers(t);
    }
  }

  /** In (racer, timestamp) order, racers first appear in increasing order. */
  lemma {:induction false} FirstSeenSorted(s: seq<Row>)
    requires SortedBy(ByRacerThenTime, s)
    ensures forall i, j | 0 <= i < j < |FirstSeen(s)| :: FirstSeen(s)[i] < FirstSeen(s)[j]
    decreases |s|
  {
    if s != [] {
      var t := s[..|s| - 1];
      var x := s[|s| - 1];
      SortedPrefix(ByRacerThenTime, s, |s| - 1);
      FirstSeenSorted(t);
      FirstSeenRacers(t);
      if x.racer !in Racers(t) {
        var f := FirstSeen(t);
        forall r | r in f ensures r < x.racer {
          var y :| y in t && y.racer == r;
          var p :| 0 <= p < |t| && t[p] == y;
          assert Le(ByRacerThenTime, s[p], s[|s| - 1]);
        }
        assert FirstSeen(s) == f + [x.racer];
        forall i, j | 0 <= i < j < |f| + 1 ensures (f + [x.racer])[i] < (f + [x.racer])[j] {
          if j == |f| {
            assert f[i] in f;
          }
        }
      }
    }
  }

  lemma RacersPermutation(a: seq<Row>, b: seq<Row>)
    requires multiset(a) == multiset(b)
    ensures Racers(a) == Racers(b)
  {
    forall x ensures x in b <==> x in a {
      assert x in b <==> x in multiset(b);
      assert x in a <==> x in multiset(a);
    }
  }

  // --- properties of the filter

  /** Kept rows come from the input. */
  lemma {:induction false} KeptElems(s: seq<Row>, minLap: int)
    ensures forall y | y in Kept(s, minLap) :: y in s
    decreases |s|
  {
    if s != [] {
      var t := s[..|s| - 1];
      assert s == t + [s[|s| - 1]];
      KeptElems(t, minLap);
    }
  }

  /** Every racer with a row keeps at least one: its first row is never
      dropped, because the racer differs from the last kept row's. */
  lemma {:induction false} KeptRacers(s: seq<Row>, minLap: int)
    ensures Racers(Kept(s, minLap)) == Racers(s)
    decreases |s|
  {
    if s != [] {
      var t := s[..|s| - 1];
      var x := s[|s| - 1];
      assert s == t + [x];
      var k := Kept(t, minLap);
      KeptRacers(t, minLap);
      RacersSnoc(t, x);
      RacersSnoc(k, x);
      if x.racer !in Racers(t) {
        assert k != [] ==> k[|k| - 1] in k;
        assert LastId(k) != Some(x.racer);
      }
    }
  }

  /** Within a racer, the kept events are a subsequence of its events, and
      the first one is kept. */
  lemma {:induction false} KeptPoints(s: seq<Row>, minLap: int, r: RacerId)
    ensures Subseq(Points(Kept(s, minLap), r), Points(s, r))
    ensures Points(s, r) != [] ==>
              Points(Kept(s, minLap), r) != [] && Points(Kept(s, minLap), r)[0] == Points(s, r)[0]
    decreases |s|
  {
    if s != [] {
      var t := s[..|s| - 1];
      var x := s[|s| - 1];
      var k := Kept(t, minLap);
      KeptPoints(t, minLap, r);
      KeptRacers(t, minLap);
      PointsEmpty(t, r);
      PointsEmpty(k, r);
      var pk := Points(k, r);
      var pt := Points(t, r);
      if Validate(LastId(k), LastTs(k), x.racer, x.ts, minLap) {
        var k' := k + [x];
        assert k'[..|k'| - 1] == k;
        if x.racer == r {
          assert Points(k', r) == pk + [RacePoint(x.ts, x.kp)];
          assert Points(s, r) == pt + [RacePoint(x.ts, x.kp)];
          assert (pk + [RacePoint(x.ts, x.kp)])[..|pk|] == pk;
          if pt == [] {
            assert pk == [];
          }
        } else {
          assert Points(k', r) == pk;
          assert Points(s, r) == pt;
        }
      } else {
        if x.racer == r {
          assert Points(s, r) == pt + [RacePoint(x.ts, x.kp)];
          assert (pt + [RacePoint(x.ts, x.kp)])[..|pt|] == pt;
        } else {
          assert Points(s, r) == pt;
        }
      }
    }
  }

  lemma {:induction false} KeptSorted(s: seq<Row>, minLap: int)
    requires SortedBy(ByRacerThenTime, s)
    ensures SortedBy(ByRacerThenTime, Kept(s, minLap))
    decreases |s|
  {
    if s != [] {
      var t := s[..|s| - 1];
      var x := s[|s| - 1];
      var k := Kept(t, minLap);
      SortedPrefix(ByRacerThenTime, s, |s| - 1);
      KeptSorted(t, minLap);
      KeptElems(t, minLap);
      var k' := k + [x];
      forall i, j | 0 <= i < j < |k'| ensures Le(ByRacerThenTime, k'[i], k'[j]) {
        if j == |k| {
          assert k[i] in t;
          var p :| 0 <= p < |t| && t[p] == k[i];
          assert Le(ByRacerThenTime, s[p], s[|s| - 1]);
        }
      }
    }
  }

  /** With input in (racer, timestamp) order, when the next row's racer
      already has kept rows, the last kept row is that racer's last kept
      event: the baseline the filter compares with. */
  lemma LastKeptIsSameRacer(s: seq<Row>, minLap: int)
    requires SortedBy(ByRacerThenTime, s) && s != []
    requires s[|s| - 1].racer in Racers(Kept(s[..|s| - 1], minLap))
    ensures var k := Kept(s[..|s| - 1], minLap);
            var p := Points(k, s[|s| - 1].racer);
            k != [] && k[|k| - 1].racer == s[|s| - 1].racer && p != [] &&
            p[|p| - 1] == RacePoint(k[|k| - 1].ts, k[|k| - 1].kp)
  {
    var t := s[..|s| - 1];
    SortedPrefix(ByRacerThenTime, s, |s| - 1);
    KeptSorted(t, minLap);
    KeptElems(t, minLap);
    var k := Kept(t, minLap);
    LastOfSubset(s, k);
    PointsLast(k, s[|s| - 1].racer);
  }

  /** When `k` is sorted, drawn from all but the last row of sorted `s`, and
      holds a row of the last row's racer, then `k` ends with that racer. */
  lemma LastOfSubset(s: seq<Row>, k: seq<Row>)
    requires SortedBy(ByRacerThenTime, s) && s != [] && SortedBy(ByRacerThenTime, k)
    requires forall y | y in k :: y in s[..|s| - 1]
    requires s[|s| - 1].racer in Racers(k)
    ensures k != [] && k[|k| - 1].racer == s[|s| - 1].racer
  {
    var x := s[|s| - 1];
    var y :| y in k && y.racer == x.racer;
    var z := k[|k| - 1];
    assert z in k;
    var q :| 0 <= q < |s| - 1 && s[..|s| - 1][q] == z;
    assert Le(ByRacerThenTime, s[q], s[|s| - 1]);
    var p :| 0 <= p < |k| && k[p] == y;
    if p < |k| - 1 {
      assert Le(ByRacerThenTime, k[p], k[|k| - 1]);
    }
  }

  /** The last event of racer `r` in `k` is the last row, when that row is
      `r`'s. */
  lemma PointsLast(k: seq<Row>, r: RacerId)
    requires k != [] && k[|k| - 1].racer == r
    ensures var p := Points(k, r);
            p != [] && p[|p| - 1] == RacePoint(k[|k| - 1].ts, k[|k| - 1].kp)
  {
  }

  /** A later event of a racer is kept iff it is at least `minLap` after
      that racer's last kept event; a racer's first event is always kept. */
  lemma KeptStep(s: seq<Row>, minLap: int, i: nat)
    requires SortedBy(ByRacerThenTime, s) && i < |s|
    ensures var k := Kept(s[..i], minLap);
            var p := Points(k, s[i].racer);
            Kept(s[..i + 1], minLap) ==
              if p == [] || s[i].ts - p[|p| - 1].ts >= minLap then k + [s[i]] else k
  {
    var x := s[i];
    assert s[..i + 1] == s[..i] + [x];
    assert s[..i + 1][..i] == s[..i];
    var k := Kept(s[..i], minLap);
    PointsEmpty(k, x.racer);
    if x.racer in Racers(k) {
      SortedPrefix(ByRacerThenTime, s, i + 1);
      LastKeptIsSameRacer(s[..i + 1], minLap);
    } else {
      assert k != [] ==> k[|k| - 1] in k;
    }
  }

  /** Consecutive events of `p` are at least `minLap` apart. */
  predicate Gapped(p: seq<RacePoint>, minLap: int) {
    forall i | 0 < i < |p| :: p[i].ts - p[i - 1].ts >= minLap
  }

  /** Consecutive kept events of one racer are at least `minLap` apart. */
  lemma {:induction false} KeptGap(s: seq<Row>, minLap: int, r: RacerId)
    requires SortedBy(ByRacerThenTime, s)
    ensures Gapped(Points(Kept(s, minLap), r), minLap)
    decreases |s|
  {
    if s != [] {
      var t := s[..|s| - 1];
      SortedPrefix(ByRacerThenTime, s, |s| - 1);
      KeptGap(t, minLap, r);
      KeptGapStep(s, minLap, r);
    }
  }

  /** One more row keeps the kept events of `r` apart: a kept event of `r`
      is compared with `r`'s last kept one. */
  lemma KeptGapStep(s: seq<Row>, minLap: int, r: RacerId)
    requires SortedBy(ByRacerThenTime, s) && s != []
    requires Gapped(Points(Kept(s[..|s| - 1], minLap), r), minLap)
    ensures Gapped(Points(Kept(s, minLap), r), minLap)
  {
    var t := s[..|s| - 1];
    var x := s[|s| - 1];
    var k := Kept(t, minLap);
    var pk := Points(k, r);
    if Validate(LastId(k), LastTs(k), x.racer, x.ts, minLap) {
      var k' := k + [x];
      assert k'[..|k'| - 1] == k;
      if x.racer == r {
        assert Points(k', r) == pk + [RacePoint(x.ts, x.kp)];
        if pk != [] {
          PointsEmpty(k, r);
          LastKeptIsSameRacer(s, minLap);
        }
        GappedSnoc(pk, RacePoint(x.ts, x.kp), minLap);
      } else {
        assert Points(k', r) == pk;
      }
    }
  }

  lemma GappedSnoc(p: seq<RacePoint>, q: RacePoint, minLap: int)
    requires Gapped(p, minLap)
    requires p != [] ==> q.ts - p[|p| - 1].ts >= minLap
    ensures Gapped(p + [q], minLap)
  {
    var p' := p + [q];
    forall i | 0 < i < |p'| ensures p'[i].ts - p'[i - 1].ts >= minLap {
      if i < |p| { assert p'[i] == p[i] && p'[i - 1] == p[i - 1]; }
    }
  }

  predicate StrictlyIncreasing(p: seq<RacePoint>) {
    forall i, j | 0 <= i < j < |p| :: p[i].ts < p[j].ts
  }

  lemma {:induction false} PointsBelow(s: seq<Row>, r: RacerId, bound: int)
    requires forall y | y in s && y.racer == r :: y.ts < bound
    ensures forall q | q in Points(s, r) :: q.ts < bound
    decreases |s|
  {
    if s != [] {
      var t := s[..|s| - 1];
      assert s == t + [s[|s| - 1]];
      PointsBelow(t, r, bound);
    }
  }

  /** In a sorted key-unique sequence, every earlier row of the last row's
      racer has a smaller timestamp. */
  lemma LastIsLatest(s: seq<Row>)
    requires SortedBy(ByRacerThenTime, s) && KeyUnique(s) && s != []
    ensures var x := s[|s| - 1];
            forall y | y in s[..|s| - 1] && y.racer == x.racer :: y.ts < x.ts
  {
    var t := s[..|s| - 1];
    var x := s[|s| - 1];
    assert s == t + [x];
    assert multiset(s) == multiset(t) + multiset{x};
    assert multiset(s)[x] == multiset(t)[x] + 1;
    assert x !in t;
    forall y | y in t && y.racer == x.racer ensures y.ts < x.ts {
      assert y in s && x in s && y != x;
      var p :| 0 <= p < |t| && t[p] == y;
      assert Le(ByRacerThenTime, s[p], s[|s| - 1]);
    }
  }

  /** In (racer, timestamp) order with the key invariant, a racer's events
      have strictly increasing timestamps. */
  lemma {:induction false} PointsIncreasing(s: seq<Row>, r: RacerId)
    requires SortedBy(ByRacerThenTime, s) && KeyUnique(s)
    ensures StrictlyIncreasing(Points(s, r))
    decreases |s|
  {
    if s != [] {
      var t := s[..|s| - 1];
      var x := s[|s| - 1];
      assert s == t + [x];
      SortedPrefix(ByRacerThenTime, s, |s| - 1);
      KeyUniquePrefix(s, |s| - 1);
      PointsIncreasing(t, r);
      if x.racer == r {
        LastIsLatest(s);
        PointsBelow(t, r, x.ts);
        var pt := Points(t, r);
        assert Points(s, r) == pt + [RacePoint(x.ts, x.kp)];
        forall i | 0 <= i < |pt| ensures pt[i].ts < x.ts {
          assert pt[i] in pt;
        }
      }
    }
  }

  /** `get_events`: per racer, the result is a subsequence of that racer's
      events in strictly increasing timestamp order; its first event is
      always kept; consecutive kept events are at least `minLap` apart. */
  lemma EventsPerRacer(rows: seq<Row>, minLap: int, r: RacerId)
    requires KeyUnique(rows)
    requires r in Racers(rows)
    ensures r in Events(rows, minLap)
    ensures var all := Points(AllEvents(rows), r);
            var e := Events(rows, minLap)[r];
            && Subseq(e, all)
            && StrictlyIncreasing(all)
            && e != [] && e[0] == all[0]
            && Gapped(e, minLap)
  {
    var s := AllEvents(rows);
    RacersPermutation(rows, s);
    KeptRacers(s, minLap);
    KeyUniquePermutation(rows, s);
    KeptPoints(s, minLap, r);
    PointsEmpty(s, r);
    PointsIncreasing(s, r);
    KeptGap(s, minLap, r);
  }

  // ---------------------------------------------------------------------
  // The state rebuilt at startup

  /** The dictionary comprehension of `get_race_state`, as written: it maps
      each racer to `row[1]` of its last row, and `row[1]` of ALL_EVENTS is
      the kpp_id column. */
  function RaceStateAsWritten(rows: seq<Row>): (m: map<RacerId, CheckpointId>)
    ensures m.Keys == Racers(rows)
    ensures forall r | r in m :: exists y | y in rows :: y.racer == r && y.kp == m[r] && y.ts == RaceState(rows)[r]
  {
    var s := AllEvents(rows);
    RacersPermutation(rows, s);
    forall r | r in LastCheckpoint(s)
      ensures exists y | y in rows :: y.racer == r && y.kp == LastCheckpoint(s)[r] && y.ts == RaceState(rows)[r]
    {
      var y :| y in s && y.racer == r && y.kp == LastCheckpoint(s)[r] && y.ts == LatestTs(s)[r];
      assert y in multiset(s);
    }
    LastCheckpoint(s)
  }

  /** `{row[0]: row[1] for row in s}`: each racer maps to the checkpoint of
      the same row whose timestamp `{row[0]: row[2] ...}` would keep. */
  function LastCheckpoint(s: seq<Row>): (m: map<RacerId, CheckpointId>)
    ensures m.Keys == Racers(s)
    ensures forall r | r in m :: exists y | y in s :: y.racer == r && y.kp == m[r] && y.ts == LatestTs(s)[r]
    decreases |s|
  {
    if s == [] then map[]
    else
      var t := s[..|s| - 1];
      var x := s[|s| - 1];
      var m := LastCheckpoint(t)[x.racer := x.kp];
      assert s == t + [x];
      RacersSnoc(t, x);
      forall r | r in m ensures exists y | y in s :: y.racer == r && y.kp == m[r] && y.ts == LatestTs(s)[r] {
        if r == x.racer {
          assert x in s;
        } else {
          var y :| y in t && y.racer == r && y.kp == LastCheckpoint(t)[r] && y.ts == LatestTs(t)[r];
          assert y in s;
        }
      }
      m
  }

  /** The racer's state holds a checkpoint id, not the timestamp a
      check-in is compared with. */
  lemma RaceStateAsWrittenHoldsCheckpoint()
    ensures RaceStateAsWritten([Row(7, "A", 1000, "u")]) == map[7 := "A"]
    ensures RaceState([Row(7, "A", 1000, "u")]) == map[7 := 1000]
  {
    var rows := [Row(7, "A", 1000, "u")];
    assert Sort(ByRacerThenTime, rows) == rows;
    assert rows[..0] == [];
    assert LastCheckpoint(rows) == map[7 := "A"];
    assert LatestTs(rows) == map[7 := 1000];
  }

  /** The corrected comprehension: the same pass taking `row[2]`, the
      timestamp, so that each racer maps to its latest timestamp. */
  function RaceState(rows: seq<Row>): (m: map<RacerId, int>)
    ensures m.Keys == Racers(rows)
    ensures forall y | y in rows :: y.ts <= m[y.racer]
    ensures forall r | r in m :: exists y | y in rows :: y.racer == r && y.ts == m[r]
  {
    var s := AllEvents(rows);
    RacersPermutation(rows, s);
    LatestTsIsMax(s);
    forall y | y in rows ensures y in s {
      assert y in multiset(rows);
    }
    forall r | r in LatestTs(s) ensures exists y | y in rows :: y.racer == r && y.ts == LatestTs(s)[r] {
      var y :| y in s && y.racer == r && y.ts == LatestTs(s)[r];
      assert y in multiset(s);
    }
    LatestTs(s)
  }

  /** `{row[0]: row[2] for row in s}`: later rows overwrite earlier ones. */
  function LatestTs(s: seq<Row>): (m: map<RacerId, int>)
    ensures m.Keys == Racers(s)
    ensures forall r | r in m :: exists y | y in s :: y.racer == r && y.ts == m[r]
    decreases |s|
  {
    if s == [] then map[]
    else
      var t := s[..|s| - 1];
      var x := s[|s| - 1];
      var m := LatestTs(t)[x.racer := x.ts];
      assert s == t + [x];
      RacersSnoc(t, x);
      assert forall y | y in t :: y in s;
      m
  }

  /** Over rows in (racer, timestamp) order, the last assignment per racer
      is its largest timestamp. */
  lemma {:induction false} LatestTsIsMax(s: seq<Row>)
    requires SortedBy(ByRacerThenTime, s)
    ensures forall y | y in s :: y.ts <= LatestTs(s)[y.racer]
    decreases |s|
  {
    if s != [] {
      var t := s[..|s| - 1];
      var x := s[|s| - 1];
      forall i, j | 0 <= i < j < |t| ensures Le(ByRacerThenTime, t[i], t[j]) {
        assert t[i] == s[i] && t[j] == s[j];
      }
      LatestTsIsMax(t);
      forall y | y in t && y.racer == x.racer ensures y.ts <= x.ts {
        var p :| 0 <= p < |t| && t[p] == y;
        assert Le(ByRacerThenTime, s[p], s[|s| - 1]);
      }
      assert s == t + [x];
      UpdateKeepsMax(t, x, LatestTs(t));
    }
  }

  /** Assigning `x`'s timestamp to its racer keeps every row of `t` at or
      below its racer's entry when `x` is the latest row of its racer. */
  lemma UpdateKeepsMax(t: seq<Row>, x: Row, m: map<RacerId, int>)
    requires forall y | y in t :: y.racer in m && y.ts <= m[y.racer]
    requires forall y | y in t && y.racer == x.racer :: y.ts <= x.ts
    ensures forall y | y in t + [x] :: y.ts <= m[x.racer := x.ts][y.racer]
  {
  }

  /** After `wipe` every query returns nothing. */
  lemma WipedStoreIsEmpty(minLap: int, kp: CheckpointId)
    ensures AllEvents([]) == [] && RawEvents([]) == [] && KpEvents([], kp) == []
    ensures Events([], minLap) == map[] && RaceState([]) == map[]
  {
    assert |AllEvents([])| == |multiset(AllEvents([]))|;
    assert |RawEvents([])| == |multiset(RawEvents([]))|;
  }
}
