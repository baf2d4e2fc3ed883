/** The report pages of motokross/pages.py: the results table built by a
    column-major greedy alignment of each racer's filtered events against
    the route, and the per-checkpoint arrival board.

    Time-of-day formatting (`get_time_str`) and `str(timedelta)` are not
    modelled: cells keep the timestamp and the delta in seconds, and the
    text of a delta is produced by a formatting function given as a
    parameter. */
module Pages {
  import opened Wrappers
  import opened Records
  import Db

  /** A cell of the results table: `--:--:--`, or a matched event with its
      timestamp and, when there is one, the seconds since the racer's
      previous matched event. */
  datatype Cell = Empty | Matched(ts: int, delta: Option<int>)

  /** `UserRow(user_id, timestamps, size)`. */
  datatype UserRow = UserRow(racer: RacerId, cells: seq<Cell>, size: nat)

  /** The delta `get_delta(prev_ts, current_ts)` stands for: none when the
      previous timestamp is not positive (0 means "no previous event"). */
  function Delta(prevTs: int, currentTs: int): Option<int> {
    if prevTs > 0 then Some(currentTs - prevTs) else None
  }

  /** The text of a delta: ` (<formatted seconds>)`, or nothing. */
  function RenderDelta(d: Option<int>, fmt: int -> string): string {
    match d
    case None => ""
    case Some(s) => " (" + fmt(s) + ")"
  }

  /** `get_delta(prev_ts, current_ts)`, with `str(timedelta(...))` as `fmt`. */
  function GetDelta(prevTs: int, currentTs: int, fmt: int -> string): (r: string)
    ensures r == RenderDelta(Delta(prevTs, currentTs), fmt)
    ensures r == "" <==> prevTs <= 0
  {
    if prevTs > 0 then " (" + fmt(currentTs - prevTs) + ")" else ""
  }

  /** The text the results table shows for a cell. */
  function CellText(c: Cell, timeStr: int -> string, fmt: int -> string): string {
    match c
    case Empty => "--:--:--"
    case Matched(ts, d) => timeStr(ts) + RenderDelta(d, fmt)
  }

  // ---------------------------------------------------------------------
  // The results table

  function CountMatched(cells: seq<Cell>): (n: nat)
    ensures n <= |cells|
    decreases |cells|
  {
    if cells == [] then 0
    else CountMatched(cells[..|cells| - 1]) + (if cells[|cells| - 1].Matched? then 1 else 0)
  }

  /** What the loop knows about one racer after some columns: the cells
      appended to `user_rows[r]`, the list left in `data_dict[r]`,
      `user_nums[r]` and `user_last_ts[r]`. */
  datatype RowState = RowState(cells: seq<Cell>, rest: seq<RacePoint>, count: nat, lastTs: int)

  /** One column for one racer: look at the first remaining event; consume
      it only when its checkpoint is this column's. */
  function Column(st: RowState, pointId: CheckpointId): RowState {
    if |st.rest| == 0 then st.(cells := st.cells + [Empty])
    else if pointId == st.rest[0].kp then
      RowState(st.cells + [Matched(st.rest[0].ts, Delta(st.lastTs, st.rest[0].ts))],
               st.rest[1..], st.count + 1, st.rest[0].ts)
    else st.(cells := st.cells + [Empty])
  }

  /** A racer's state after the columns `cps`, from its event list `pts`. */
  function Align(cps: seq<CheckpointId>, pts: seq<RacePoint>): RowState
    decreases |cps|
  {
    if cps == [] then RowState([], pts, 0, 0)
    else Column(Align(cps[..|cps| - 1], pts), cps[|cps| - 1])
  }

  /** The consumed events are a prefix of `pts`, one per matched cell;
      `lastTs` is the last consumed timestamp (0 if none). */
  predicate Shaped(st: RowState, pts: seq<RacePoint>) {
    && st.count == CountMatched(st.cells)
    && st.count <= |pts|
    && st.rest == pts[st.count..]
    && st.lastTs == (if st.count == 0 then 0 else pts[st.count - 1].ts)
  }

  /** One cell per column, at most one consumed event per column, and the
      state is shaped. */
  lemma {:induction false} AlignShape(cps: seq<CheckpointId>, pts: seq<RacePoint>)
    ensures var st := Align(cps, pts);
            && |st.cells| == |cps|
            && st.count <= |cps|
            && Shaped(st, pts)
    decreases |cps|
  {
    if cps != [] {
      var t := cps[..|cps| - 1];
      AlignShape(t, pts);
      var prev := Align(t, pts);
      assert Align(cps, pts) == Column(prev, cps[|cps| - 1]);
      ColumnShape(prev, cps[|cps| - 1], pts);
    }
  }

  /** One column appends one cell and consumes at most the next event. */
  lemma ColumnShape(st: RowState, pointId: CheckpointId, pts: seq<RacePoint>)
    requires Shaped(st, pts)
    ensures var st' := Column(st, pointId);
            && |st'.cells| == |st.cells| + 1
            && st.count <= st'.count <= st.count + 1
            && Shaped(st', pts)
  {
    var st' := Column(st, pointId);
    assert st'.cells[..|st'.cells| - 1] == st.cells;
    if |st.rest| > 0 {
      assert st.rest[0] == pts[st.count];
      assert st.rest[1..] == pts[st.count + 1..];
    }
  }

  lemma {:induction false} AlignNext(cps: seq<CheckpointId>, pts: seq<RacePoint>, j: nat)
    requires j < |cps|
    ensures Align(cps[..j + 1], pts) == Column(Align(cps[..j], pts), cps[j])
  {
    assert cps[..j + 1][..j] == cps[..j];
  }

  /** The cells of a prefix of the route are the prefix of the cells. */
  lemma {:induction false} AlignPrefix(cps: seq<CheckpointId>, pts: seq<RacePoint>, n: nat)
    requires n <= |cps|
    ensures |Align(cps, pts).cells| == |cps|
    ensures Align(cps, pts).cells[..n] == Align(cps[..n], pts).cells
    decreases |cps|
  {
    AlignShape(cps, pts);
    if n < |cps| {
      var t := cps[..|cps| - 1];
      var prev := Align(t, pts);
      var st := Column(prev, cps[|cps| - 1]);
      assert Align(cps, pts) == st;
      AlignShape(t, pts);
      ColumnAppends(prev, cps[|cps| - 1]);
      assert st.cells[..n] == prev.cells[..n];
      AlignPrefix(t, pts, n);
      assert t[..n] == cps[..n];
    } else {
      assert cps[..n] == cps;
    }
  }

  lemma ColumnAppends(st: RowState, pointId: CheckpointId)
    ensures |Column(st, pointId).cells| == |st.cells| + 1
    ensures Column(st, pointId).cells[..|st.cells|] == st.cells
  {
  }

  /** Cell `j` of a racer's row: with `k` the number of matched cells
      before it, the cell is matched iff the racer's `k`-th event exists and
      carries column `j`'s checkpoint; a matched cell shows that event, with
      the delta from the event consumed before it (none for the first). */
  lemma {:induction false} AlignCell(cps: seq<CheckpointId>, pts: seq<RacePoint>, j: nat)
    requires j < |cps|
    ensures |Align(cps, pts).cells| == |cps|
    ensures var cells := Align(cps, pts).cells;
            var k := CountMatched(cells[..j]);
            && (cells[j].Matched? <==> k < |pts| && pts[k].kp == cps[j])
            && (cells[j].Matched? ==>
                  cells[j] == Matched(pts[k].ts, Delta(if k == 0 then 0 else pts[k - 1].ts, pts[k].ts)))
  {
    AlignCellIsColumnCell(cps, pts, j);
    AlignShape(cps[..j], pts);
    CellOfColumn(Align(cps, pts).cells, j, Align(cps[..j], pts), cps[j], pts);
  }

  /** Cell `j` of a row, when it is the cell column `j` adds to `prev`. */
  lemma {:induction false} CellOfColumn(cells: seq<Cell>, j: nat, prev: RowState, pointId: CheckpointId, pts: seq<RacePoint>)
    requires j < |cells| && |prev.cells| == j
    requires cells[j] == Column(prev, pointId).cells[j]
    requires CountMatched(cells[..j]) == prev.count
    requires prev.count <= |pts| && prev.rest == pts[prev.count..]
    requires prev.lastTs == if prev.count == 0 then 0 else pts[prev.count - 1].ts
    ensures var k := CountMatched(cells[..j]);
            && (cells[j].Matched? <==> k < |pts| && pts[k].kp == pointId)
            && (cells[j].Matched? ==>
                  cells[j] == Matched(pts[k].ts, Delta(if k == 0 then 0 else pts[k - 1].ts, pts[k].ts)))
  {
    ColumnCell(prev, pointId, pts, prev.count);
  }

  /** Cell `j` is the cell that column `j` adds to the state after the
      columns before it, whose count is the number of matched cells before
      `j`. */
  lemma {:induction false} AlignCellIsColumnCell(cps: seq<CheckpointId>, pts: seq<RacePoint>, j: nat)
    requires j < |cps|
    ensures |Align(cps, pts).cells| == |cps|
    ensures |Align(cps[..j], pts).cells| == j
    ensures Align(cps, pts).cells[j] == Column(Align(cps[..j], pts), cps[j]).cells[j]
    ensures CountMatched(Align(cps, pts).cells[..j]) == Align(cps[..j], pts).count
  {
    var prev := Align(cps[..j], pts);
    AlignPrefix(cps, pts, j);
    AlignPrefix(cps, pts, j + 1);
    AlignNext(cps, pts, j);
    AlignShape(cps[..j], pts);
    var st := Column(prev, cps[j]);
    assert Align(cps, pts).cells[..j + 1] == st.cells;
    assert Align(cps, pts).cells[j] == Align(cps, pts).cells[..j + 1][j];
  }

  lemma ColumnCell(prev: RowState, pointId: CheckpointId, pts: seq<RacePoint>, k: nat)
    requires k <= |pts| && prev.rest == pts[k..]
    requires prev.lastTs == if k == 0 then 0 else pts[k - 1].ts
    ensures var c := Column(prev, pointId).cells[|prev.cells|];
            && (c.Matched? <==> k < |pts| && pts[k].kp == pointId)
            && (c.Matched? ==> c == Matched(pts[k].ts, Delta(if k == 0 then 0 else pts[k - 1].ts, pts[k].ts)))
  {
    if k < |pts| {
      assert prev.rest[0] == pts[k];
    }
  }

  /** What the four dictionaries of the loop hold for racer `r`. */
  ghost function Snapshot(userRows: map<RacerId, seq<Cell>>, rest: map<RacerId, seq<RacePoint>>,
                          userNums: map<RacerId, nat>, userLastTs: map<RacerId, int>, r: RacerId): RowState
    requires r in rest
  {
    RowState(Get(userRows, r, []), rest[r], Get(userNums, r, 0), Get(userLastTs, r, 0))
  }

  /** One step of the inner loop of `get_stat_table`: racer `userId` and
      column `pointId`. The racer's state advances by one column; no other
      racer's state changes. */
  method VisitRacer(userRows: map<RacerId, seq<Cell>>, remaining: map<RacerId, seq<RacePoint>>,
                    userNums: map<RacerId, nat>, userLastTs: map<RacerId, int>,
                    userId: RacerId, pointId: CheckpointId)
    returns (userRows': map<RacerId, seq<Cell>>, remaining': map<RacerId, seq<RacePoint>>,
             userNums': map<RacerId, nat>, userLastTs': map<RacerId, int>)
    requires userId in remaining
    ensures remaining'.Keys == remaining.Keys
    ensures userId in userRows'
    ensures forall r | r != userId :: r in userRows' <==> r in userRows
    ensures Snapshot(userRows', remaining', userNums', userLastTs', userId)
            == Column(Snapshot(userRows, remaining, userNums, userLastTs, userId), pointId)
    ensures forall r | r in remaining && r != userId ::
              Snapshot(userRows', remaining', userNums', userLastTs', r)
              == Snapshot(userRows, remaining, userNums, userLastTs, r)
  {
    remaining', userNums', userLastTs' := remaining, userNums, userLastTs;
    var racePoints := remaining[userId];
    var cell: Cell;
    if |racePoints| == 0 {
      cell := Empty;
    } else {
      var p := racePoints[0];
      if pointId == p.kp {
        cell := Matched(p.ts, Delta(Get(userLastTs, userId, 0), p.ts));
        remaining' := remaining[userId := racePoints[1..]];
        userNums' := userNums[userId := Get(userNums, userId, 0) + 1];
        userLastTs' := userLastTs[userId := p.ts];
      } else {
        cell := Empty;
      }
    }
    userRows' := userRows[userId := Get(userRows, userId, []) + [cell]];
  }

  /** The inner loop of `get_stat_table`: one column `pointId`, visiting
      the racers in `order` (the key order of `data_dict`). Every racer's
      state advances by that column; `rowOrder` is the key order of
      `user_rows`, which the first column fills. */
  method VisitColumn(userRows: map<RacerId, seq<Cell>>, remaining: map<RacerId, seq<RacePoint>>,
                     userNums: map<RacerId, nat>, userLastTs: map<RacerId, int>,
                     rowOrder: seq<RacerId>, order: seq<RacerId>, pointId: CheckpointId)
    returns (userRows': map<RacerId, seq<Cell>>, remaining': map<RacerId, seq<RacePoint>>,
             userNums': map<RacerId, nat>, userLastTs': map<RacerId, int>, rowOrder': seq<RacerId>)
    requires forall i, j | 0 <= i < j < |order| :: order[i] != order[j]
    requires forall r :: r in remaining <==> r in order
    requires || (rowOrder == [] && userRows == map[])
             || (rowOrder == order && forall k | 0 <= k < |order| :: order[k] in userRows)
    ensures remaining'.Keys == remaining.Keys
    ensures rowOrder' == order
    ensures forall k | 0 <= k < |order| :: order[k] in userRows'
    ensures forall r | r in remaining ::
              Snapshot(userRows', remaining', userNums', userLastTs', r)
              == Column(Snapshot(userRows, remaining, userNums, userLastTs, r), pointId)
  {
    userRows', remaining', userNums', userLastTs', rowOrder' := userRows, remaining, userNums, userLastTs, rowOrder;
    ghost var before := (userRows, remaining, userNums, userLastTs);
    assert forall k | 0 <= k < |order| :: order[k] in remaining by {
      forall k | 0 <= k < |order| ensures order[k] in remaining {
        assert order[k] in order;
      }
    }
    var i := 0;
    while i < |order|
      invariant 0 <= i <= |order|
      invariant remaining'.Keys == remaining.Keys
      invariant forall k | 0 <= k < i ::
                  Snapshot(userRows', remaining', userNums', userLastTs', order[k])
                  == Column(Snapshot(before.0, before.1, before.2, before.3, order[k]), pointId)
      invariant forall k | i <= k < |order| ::
                  Snapshot(userRows', remaining', userNums', userLastTs', order[k])
                  == Snapshot(before.0, before.1, before.2, before.3, order[k])
      invariant rowOrder' == if rowOrder == [] then order[..i] else order
      invariant rowOrder == [] ==> forall k | i <= k < |order| :: order[k] !in userRows'
      invariant forall k | 0 <= k < i :: order[k] in userRows'
      invariant rowOrder != [] ==> forall k | 0 <= k < |order| :: order[k] in userRows'
    {
      var userId := order[i];
      PrefixStep(order, i);
      if userId !in userRows' {
        rowOrder' := rowOrder' + [userId];
      }
      ghost var prev := (userRows', remaining', userNums', userLastTs');
      userRows', remaining', userNums', userLastTs' := VisitRacer(userRows', remaining', userNums', userLastTs', userId, pointId);
      ColumnStep(before, prev, (userRows', remaining', userNums', userLastTs'), order, i, pointId);
      i := i + 1;
    }
    assert order[..|order|] == order;
    forall r | r in remaining
      ensures Snapshot(userRows', remaining', userNums', userLastTs', r)
              == Column(Snapshot(userRows, remaining, userNums, userLastTs, r), pointId)
    {
      var k :| 0 <= k < |order| && order[k] == r;
    }
  }

  /** The four dictionaries of the loop: `user_rows`, `data_dict`,
      `user_nums` and `user_last_ts`. */
  type Tables = (map<RacerId, seq<Cell>>, map<RacerId, seq<RacePoint>>, map<RacerId, nat>, map<RacerId, int>)

  /** The four dictionaries hold, for every racer, its alignment against
      the columns `cps`. */
  ghost predicate AlignedAt(cps: seq<CheckpointId>, dataDict: map<RacerId, seq<RacePoint>>, tables: Tables) {
    && tables.1.Keys == dataDict.Keys
    && forall r | r in dataDict ::
         Snapshot(tables.0, tables.1, tables.2, tables.3, r) == Align(cps, dataDict[r])
  }

  /** One racer's visit keeps the invariant of the inner loop: the racers
      visited so far have advanced by one column, the others not yet. */
  lemma ColumnStep(before: Tables, prev: Tables, cur: Tables, order: seq<RacerId>, i: nat, pointId: CheckpointId)
    requires i < |order|
    requires forall i, j | 0 <= i < j < |order| :: order[i] != order[j]
    requires forall k | 0 <= k < |order| :: order[k] in before.1
    requires before.1.Keys == prev.1.Keys == cur.1.Keys
    requires forall k | 0 <= k < i ::
               Snapshot(prev.0, prev.1, prev.2, prev.3, order[k])
               == Column(Snapshot(before.0, before.1, before.2, before.3, order[k]), pointId)
    requires forall k | i <= k < |order| ::
               Snapshot(prev.0, prev.1, prev.2, prev.3, order[k])
               == Snapshot(before.0, before.1, before.2, before.3, order[k])
    requires Snapshot(cur.0, cur.1, cur.2, cur.3, order[i])
             == Column(Snapshot(prev.0, prev.1, prev.2, prev.3, order[i]), pointId)
    requires forall r | r in prev.1 && r != order[i] ::
               Snapshot(cur.0, cur.1, cur.2, cur.3, r) == Snapshot(prev.0, prev.1, prev.2, prev.3, r)
    ensures forall k | 0 <= k < i + 1 ::
              Snapshot(cur.0, cur.1, cur.2, cur.3, order[k])
              == Column(Snapshot(before.0, before.1, before.2, before.3, order[k]), pointId)
    ensures forall k | i + 1 <= k < |order| ::
              Snapshot(cur.0, cur.1, cur.2, cur.3, order[k])
              == Snapshot(before.0, before.1, before.2, before.3, order[k])
  {
    forall k | 0 <= k < |order| && k != i
      ensures Snapshot(cur.0, cur.1, cur.2, cur.3, order[k]) == Snapshot(prev.0, prev.1, prev.2, prev.3, order[k])
    {
      assert order[k] != order[i];
    }
  }

  /** The racers before position `i` of a list without repetitions do not
      include the one at `i`. */
  lemma PrefixStep(order: seq<RacerId>, i: nat)
    requires forall i, j | 0 <= i < j < |order| :: order[i] != order[j]
    requires i < |order|
    ensures order[i] !in order[..i]
    ensures order[..i + 1] == order[..i] + [order[i]]
  {
  }

  /** One column of the outer loop keeps its invariant: every racer's state
      is the alignment against one more control point. */
  lemma {:induction false} TableStep(cps: seq<CheckpointId>, dataDict: map<RacerId, seq<RacePoint>>, j: nat, before: Tables, after: Tables)
    requires j < |cps|
    requires AlignedAt(cps[..j], dataDict, before) && after.1.Keys == dataDict.Keys
    requires forall r | r in before.1 ::
               Snapshot(after.0, after.1, after.2, after.3, r)
               == Column(Snapshot(before.0, before.1, before.2, before.3, r), cps[j])
    ensures AlignedAt(cps[..j + 1], dataDict, after)
  {
    forall r | r in dataDict
      ensures Snapshot(after.0, after.1, after.2, after.3, r) == Align(cps[..j + 1], dataDict[r])
    {
      AlignNext(cps, dataDict[r], j);
    }
  }

  /** The aggregation loop of `get_stat_table`. `dataDict` is what
      `get_events` returned and `order` its key order; the method returns the
      table rows and the dictionary as the in-place `pop(0)` calls leave it.
      `user_rows` is a `defaultdict`, so a racer has a row only once some
      column has been visited: with no control points there are no rows. */
  method StatTable(controlPoints: seq<CheckpointId>, dataDict: map<RacerId, seq<RacePoint>>, order: seq<RacerId>)
    returns (rows: seq<UserRow>, remaining: map<RacerId, seq<RacePoint>>)
    requires forall i, j | 0 <= i < j < |order| :: order[i] != order[j]
    requires forall r :: r in dataDict <==> r in order
    ensures |rows| == if controlPoints == [] then 0 else |order|
    ensures forall i | 0 <= i < |rows| ::
              && rows[i].racer == order[i]
              && rows[i].cells == Align(controlPoints, dataDict[order[i]]).cells
              && rows[i].size == Align(controlPoints, dataDict[order[i]]).count
    ensures remaining.Keys == dataDict.Keys
    ensures forall r | r in dataDict ::
              Align(controlPoints, dataDict[r]).count <= |dataDict[r]|
              && remaining[r] == dataDict[r][Align(controlPoints, dataDict[r]).count..]
  {
    var userRows: map<RacerId, seq<Cell>> := map[];
    var rowOrder: seq<RacerId> := [];
    var userNums: map<RacerId, nat> := map[];
    var userLastTs: map<RacerId, int> := map[];
    remaining := dataDict;
    assert controlPoints[..0] == [];
    AlignedAtStart(dataDict);
    var j := 0;
    while j < |controlPoints|
      invariant 0 <= j <= |controlPoints|
      invariant AlignedAt(controlPoints[..j], dataDict, (userRows, remaining, userNums, userLastTs))
      invariant rowOrder == if j == 0 then [] else order
      invariant j == 0 ==> userRows == map[]
      invariant j > 0 ==> forall k | 0 <= k < |order| :: order[k] in userRows
    {
      var after;
      after, rowOrder := NextColumn(controlPoints, dataDict, order, j, (userRows, remaining, userNums, userLastTs), rowOrder);
      userRows, remaining, userNums, userLastTs := after.0, after.1, after.2, after.3;
      j := j + 1;
    }
    assert controlPoints[..|controlPoints|] == controlPoints;
    rows := BuildRows(controlPoints, dataDict, order, (userRows, remaining, userNums, userLastTs), rowOrder);
  }

  /** Before the first column every racer is at its starting state. */
  lemma AlignedAtStart(dataDict: map<RacerId, seq<RacePoint>>)
    ensures AlignedAt([], dataDict, (map[], dataDict, map[], map[]))
  {
  }

  /** One pass of the outer loop of `get_stat_table`: column `j` for every
      racer. */
  method NextColumn(cps: seq<CheckpointId>, dataDict: map<RacerId, seq<RacePoint>>, order: seq<RacerId>, j: nat,
                    tables: Tables, rowOrder: seq<RacerId>)
    returns (tables': Tables, rowOrder': seq<RacerId>)
    requires j < |cps|
    requires forall i, k | 0 <= i < k < |order| :: order[i] != order[k]
    requires forall r :: r in dataDict <==> r in order
    requires AlignedAt(cps[..j], dataDict, tables)
    requires rowOrder == (if j == 0 then [] else order)
    requires j == 0 ==> tables.0 == map[]
    requires j > 0 ==> forall k | 0 <= k < |order| :: order[k] in tables.0
    ensures AlignedAt(cps[..j + 1], dataDict, tables')
    ensures rowOrder' == order
    ensures forall k | 0 <= k < |order| :: order[k] in tables'.0
  {
    var userRows, remaining, userNums, userLastTs;
    userRows, remaining, userNums, userLastTs, rowOrder' :=
      VisitColumn(tables.0, tables.1, tables.2, tables.3, rowOrder, order, cps[j]);
    tables' := (userRows, remaining, userNums, userLastTs);
    TableStep(cps, dataDict, j, tables, tables');
  }

  /** `rows = [[user_id, user_rows[user_id], user_nums[user_id]] for user_id
      in user_rows]` after the last column. */
  method BuildRows(cps: seq<CheckpointId>, dataDict: map<RacerId, seq<RacePoint>>, order: seq<RacerId>,
                   tables: Tables, rowOrder: seq<RacerId>)
    returns (rows: seq<UserRow>)
    requires forall r :: r in dataDict <==> r in order
    requires AlignedAt(cps, dataDict, tables)
    requires rowOrder == if cps == [] then [] else order
    ensures |rows| == if cps == [] then 0 else |order|
    ensures forall i | 0 <= i < |rows| ::
              && rows[i].racer == order[i]
              && rows[i].cells == Align(cps, dataDict[order[i]]).cells
              && rows[i].size == Align(cps, dataDict[order[i]]).count
    ensures forall r | r in dataDict ::
              Align(cps, dataDict[r]).count <= |dataDict[r]|
              && tables.1[r] == dataDict[r][Align(cps, dataDict[r]).count..]
  {
    rows := seq(|rowOrder|, k requires 0 <= k < |rowOrder| =>
                  UserRow(rowOrder[k], Get(tables.0, rowOrder[k], []), Get(tables.2, rowOrder[k], 0)));
    TableResult(cps, dataDict, order, tables);
  }

  /** After the last column: each racer's row and count are its alignment
      against the whole route, and its remaining events follow the matched
      ones. */
  lemma {:induction false} TableResult(cps: seq<CheckpointId>, dataDict: map<RacerId, seq<RacePoint>>, order: seq<RacerId>, tables: Tables)
    requires forall r :: r in dataDict <==> r in order
    requires AlignedAt(cps, dataDict, tables)
    ensures forall r | r in dataDict ::
              Align(cps, dataDict[r]).count <= |dataDict[r]|
              && tables.1[r] == dataDict[r][Align(cps, dataDict[r]).count..]
    ensures forall k | 0 <= k < |order| ::
              && order[k] in dataDict
              && Get(tables.0, order[k], []) == Align(cps, dataDict[order[k]]).cells
              && Get(tables.2, order[k], 0) == Align(cps, dataDict[order[k]]).count
  {
    forall r | r in dataDict
      ensures Align(cps, dataDict[r]).count <= |dataDict[r]|
      ensures tables.1[r] == dataDict[r][Align(cps, dataDict[r]).count..]
    {
      AlignShape(cps, dataDict[r]);
    }
    forall k | 0 <= k < |order|
      ensures order[k] in dataDict
      ensures Get(tables.0, order[k], []) == Align(cps, dataDict[order[k]]).cells
      ensures Get(tables.2, order[k], 0) == Align(cps, dataDict[order[k]]).count
    {
      assert order[k] in order;
      var s := Snapshot(tables.0, tables.1, tables.2, tables.3, order[k]);
      assert s.cells == Get(tables.0, order[k], []) && s.count == Get(tables.2, order[k], 0);
    }
  }

  /** `get_stat_table`: the rows, one per racer with events (as long as the
      route is not empty), in ascending racer id, each aligned against the
      route from that racer's filtered events. */
  method GetStatTable(db: Db.SqliteDb, minLap: int, controlPoints: seq<CheckpointId>) returns (rows: seq<UserRow>)
    requires db.Valid()
    ensures forall i, j | 0 <= i < j < |rows| :: rows[i].racer < rows[j].racer
    ensures controlPoints != [] ==>
              forall r | r in Db.Racers(db.rows) :: exists i | 0 <= i < |rows| :: rows[i].racer == r
    ensures forall i | 0 <= i < |rows| ::
              && rows[i].racer in Db.Events(db.rows, minLap)
              && rows[i].cells == Align(controlPoints, Db.Events(db.rows, minLap)[rows[i].racer]).cells
              && rows[i].size == Align(controlPoints, Db.Events(db.rows, minLap)[rows[i].racer]).count
  {
    var dataDict, order := db.GetEvents(minLap);
    Db.EventsKeyOrder(db.rows, minLap);
    var remaining;
    rows, remaining := StatTable(controlPoints, dataDict, order);
    if controlPoints != [] {
      forall r | r in Db.Racers(db.rows) ensures exists i | 0 <= i < |rows| :: rows[i].racer == r {
        var i :| 0 <= i < |order| && order[i] == r;
        assert rows[i].racer == r;
      }
    }
  }

  // ---------------------------------------------------------------------
  // The checkpoint board

  /** The interval column of the board: the sentinel `(--:--:--)` for the
      newest passage, otherwise the delta from the previous (newer) one. */
  datatype Interval = Newest | Since(delta: Option<int>)

  datatype BoardEntry = BoardEntry(racer: RacerId, ts: int, interval: Interval)

  function IntervalText(iv: Interval, fmt: int -> string): string {
    match iv
    case Newest => "(--:--:--)"
    case Since(d) => RenderDelta(d, fmt)
  }

  /** The shown interval column is `get_delta(p.timestamp, prev_ts)` for
      every passage after the newest one, which shows the sentinel. */
  lemma BoardIntervalText(events: seq<KPPoint>, kpData: seq<BoardEntry>, fmt: int -> string)
    requires |kpData| == |events|
    requires |events| > 0 ==> kpData[0].interval == Newest
    requires forall i | 0 < i < |events| :: kpData[i].interval == Since(Delta(events[i].ts, events[i - 1].ts))
    ensures |events| > 0 ==> IntervalText(kpData[0].interval, fmt) == "(--:--:--)"
    ensures forall i | 0 < i < |events| ::
              IntervalText(kpData[i].interval, fmt) == GetDelta(events[i].ts, events[i - 1].ts, fmt)
  {
  }

  /** The loop of `get_kp_stat_table` over `get_kp_events(kp_id)`. */
  method KpBoard(events: seq<KPPoint>) returns (kpData: seq<BoardEntry>)
    ensures |kpData| == |events|
    ensures forall i | 0 <= i < |events| :: kpData[i].racer == events[i].racer && kpData[i].ts == events[i].ts
    ensures |events| > 0 ==> kpData[0].interval == Newest
    ensures forall i | 0 < i < |events| :: kpData[i].interval == Since(Delta(events[i].ts, events[i - 1].ts))
  {
    kpData := [];
    var prevTs: Option<int> := None;
    for n := 0 to |events|
      invariant |kpData| == n
      invariant prevTs == if n == 0 then None else Some(events[n - 1].ts)
      invariant forall i | 0 <= i < n :: kpData[i].racer == events[i].racer && kpData[i].ts == events[i].ts
      invariant n > 0 ==> kpData[0].interval == Newest
      invariant forall i | 0 < i < n :: kpData[i].interval == Since(Delta(events[i].ts, events[i - 1].ts))
    {
      var p := events[n];
      var delta: Interval;
      if prevTs.Some? {
        delta := Since(Delta(p.ts, prevTs.value));
      } else {
        delta := Newest;
      }
      prevTs := Some(p.ts);
      kpData := kpData + [BoardEntry(p.racer, p.ts, delta)];
    }
  }

  /** On a board sorted newest first, every shown delta is non-negative. */
  lemma BoardDeltasNonNegative(kpData: seq<BoardEntry>)
    requires forall i, j | 0 <= i < j < |kpData| :: kpData[i].ts >= kpData[j].ts
    requires forall i | 0 < i < |kpData| :: kpData[i].interval == Since(Delta(kpData[i].ts, kpData[i - 1].ts))
    ensures forall i | 0 < i < |kpData| :: kpData[i].interval.Since? && kpData[i].interval.delta.Some? ==> kpData[i].interval.delta.value >= 0
  {
    forall i | 0 < i < |kpData|
      ensures kpData[i].interval.Since? && kpData[i].interval.delta.Some? ==> kpData[i].interval.delta.value >= 0
    {
      assert kpData[i - 1].ts >= kpData[i].ts;
    }
  }

  /** `kpData` is the board of checkpoint `kp` over the table: one entry
      per passage at `kp` and every such passage on it, newest first; the
      newest carries the sentinel, every other one the delta to the entry
      before it (the newer passage). */
  ghost predicate IsBoard(rows: seq<Row>, kp: CheckpointId, kpData: seq<BoardEntry>) {
    && |kpData| == |Db.WithCheckpoint(rows, kp)|
    && (forall i | 0 <= i < |kpData| :: Db.PassageOf(rows, kp, KPPoint(kpData[i].ts, kpData[i].racer)))
    && (forall x | x in rows && x.kp == kp ::
          exists i | 0 <= i < |kpData| :: kpData[i].ts == x.ts && kpData[i].racer == x.racer)
    && (forall i, j | 0 <= i < j < |kpData| :: kpData[i].ts >= kpData[j].ts)
    && (|kpData| > 0 ==> kpData[0].interval == Newest)
    && (forall i | 0 < i < |kpData| :: kpData[i].interval == Since(Delta(kpData[i].ts, kpData[i - 1].ts)))
  }

  /** The loop over the passages of `kp`, newest first (what
      `get_kp_events(kp)` yields), builds the board of `kp`. */
  lemma BoardOfEvents(rows: seq<Row>, kp: CheckpointId, events: seq<KPPoint>, kpData: seq<BoardEntry>)
    requires |events| == |Db.WithCheckpoint(rows, kp)|
    requires forall i, j | 0 <= i < j < |events| :: events[i].ts >= events[j].ts
    requires forall i | 0 <= i < |events| :: Db.PassageOf(rows, kp, events[i])
    requires forall x | x in rows && x.kp == kp :: KPPoint(x.ts, x.racer) in events
    requires |kpData| == |events|
    requires forall i | 0 <= i < |events| :: kpData[i].racer == events[i].racer && kpData[i].ts == events[i].ts
    requires |events| > 0 ==> kpData[0].interval == Newest
    requires forall i | 0 < i < |events| :: kpData[i].interval == Since(Delta(events[i].ts, events[i - 1].ts))
    ensures IsBoard(rows, kp, kpData)
  {
    BoardPassages(rows, kp, events, kpData);
  }

  /** The entries are the passages at `kp`, in the order of `events`. */
  lemma BoardPassages(rows: seq<Row>, kp: CheckpointId, events: seq<KPPoint>, kpData: seq<BoardEntry>)
    requires |kpData| == |events|
    requires forall i | 0 <= i < |events| :: kpData[i].racer == events[i].racer && kpData[i].ts == events[i].ts
    requires forall i | 0 <= i < |events| :: Db.PassageOf(rows, kp, events[i])
    requires forall x | x in rows && x.kp == kp :: KPPoint(x.ts, x.racer) in events
    ensures forall i | 0 <= i < |kpData| :: Db.PassageOf(rows, kp, KPPoint(kpData[i].ts, kpData[i].racer))
    ensures forall x | x in rows && x.kp == kp ::
              exists i | 0 <= i < |kpData| :: kpData[i].ts == x.ts && kpData[i].racer == x.racer
  {
    assert forall i | 0 <= i < |kpData| :: KPPoint(kpData[i].ts, kpData[i].racer) == events[i];
    forall x | x in rows && x.kp == kp
      ensures exists i | 0 <= i < |kpData| :: kpData[i].ts == x.ts && kpData[i].racer == x.racer
    {
      var i :| 0 <= i < |events| && events[i] == KPPoint(x.ts, x.racer);
      assert kpData[i].ts == x.ts && kpData[i].racer == x.racer;
    }
  }

  /** `get_kp_stat_table`: the board of checkpoint `kpId` (empty when no
      checkpoint is chosen), whose shown deltas are never negative, and the
      checkpoint selector list. */
  method GetKpStatTable(db: Db.SqliteDb, kpId: CheckpointId, controlPoints: seq<CheckpointId>)
    returns (kpData: seq<BoardEntry>, kps: seq<CheckpointId>)
    ensures kpId == "" ==> kpData == []
    ensures kpId != "" ==> IsBoard(db.rows, kpId, kpData)
    ensures forall i | 0 < i < |kpData| :: kpData[i].interval.Since? && kpData[i].interval.delta.Some? ==> kpData[i].interval.delta.value >= 0
    ensures StrictlySorted(kps) && forall c :: c in kps <==> c in controlPoints
    ensures forall i, j | 0 <= i < j < |kps| :: kps[i] != kps[j]
  {
    kpData := [];
    if kpId != "" {
      var events := Db.KpEvents(db.rows, kpId);
      kpData := KpBoard(events);
      BoardOfEvents(db.rows, kpId, events, kpData);
      BoardDeltasNonNegative(kpData);
    }
    kps := SortedUnique(controlPoints);
    StrictlySortedDistinct(kps);
  }

  // ---------------------------------------------------------------------
  // The checkpoint selector: sorted(list(set(control_points)))

  /** Python's string order: lexicographic by code point, a proper prefix
      first. */
  predicate StrLt(a: string, b: string)
    decreases |a|
  {
    if a == [] then b != []
    else b != [] && (a[0] < b[0] || (a[0] == b[0] && StrLt(a[1..], b[1..])))
  }

  lemma {:induction false} StrLtIrreflexive(a: string)
    ensures !StrLt(a, a)
    decreases |a|
  {
    if a != [] { StrLtIrreflexive(a[1..]); }
  }

  lemma {:induction false} StrLtTransitive(a: string, b: string, c: string)
    requires StrLt(a, b) && StrLt(b, c)
    ensures StrLt(a, c)
    decreases |a|
  {
    if a != [] && a[0] == b[0] && b[0] == c[0] {
      StrLtTransitive(a[1..], b[1..], c[1..]);
    }
  }

  lemma {:induction false} StrLtTotal(a: string, b: string)
    ensures a == b || StrLt(a, b) || StrLt(b, a)
    decreases |a|
  {
    if a != [] && b != [] && a[0] == b[0] {
      StrLtTotal(a[1..], b[1..]);
      if a[1..] == b[1..] {
        assert a == [a[0]] + a[1..] && b == [b[0]] + b[1..];
      }
    }
  }

  predicate StrictlySorted(s: seq<string>) {
    forall i, j | 0 <= i < j < |s| :: StrLt(s[i], s[j])
  }

  /** A strictly sorted list repeats no checkpoint, as `set` guarantees. */
  lemma StrictlySortedDistinct(s: seq<string>)
    requires StrictlySorted(s)
    ensures forall i, j | 0 <= i < j < |s| :: s[i] != s[j]
  {
    forall i, j | 0 <= i < j < |s| ensures s[i] != s[j] {
      StrLtIrreflexive(s[i]);
    }
  }

  /** Adds `x` to a strictly sorted list unless it is already there. */
  function InsertUnique(x: string, s: seq<string>): (r: seq<string>)
    requires StrictlySorted(s)
    ensures StrictlySorted(r)
    ensures forall c :: c in r <==> c in s || c == x
    decreases |s|
  {
    if s == [] then [x]
    else if x == s[0] then s
    else if StrLt(x, s[0]) then
      forall j | 0 < j < |s| ensures StrLt(x, s[j]) {
        StrLtTransitive(x, s[0], s[j]);
      }
      [x] + s
    else
      StrLtTotal(x, s[0]);
      var t := InsertUnique(x, s[1..]);
      assert forall c :: c in s <==> c == s[0] || c in s[1..];
      forall j | 0 <= j < |t| ensures StrLt(s[0], t[j]) {
        assert t[j] in t;
      }
      [s[0]] + t
  }

  /** `sorted(list(set(control_points)))`: each checkpoint once, in
      increasing order. */
  function SortedUnique(cps: seq<string>): (r: seq<string>)
    ensures StrictlySorted(r)
    ensures forall c :: c in r <==> c in cps
    decreases |cps|
  {
    if cps == [] then []
    else
      assert forall c :: c in cps <==> c == cps[0] || c in cps[1..];
      InsertUnique(cps[0], SortedUnique(cps[1..]))
  }
}
