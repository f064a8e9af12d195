/** What each insert policy guarantees about the statements of a plan. */
module BatchSizes {
  import opened Arithmetic
  import opened InsertPolicy
  import opened BatchPlan

  // ---- Row counts ----

  /** All batches but the last have exactly m rows, and the last between 1 and m. */
  ghost predicate Chunked(batches: seq<seq<Row>>, m: nat) {
    && (forall i | 0 <= i < |batches| - 1 :: |batches[i]| == m)
    && (batches != [] ==> 1 <= |batches[|batches| - 1]| <= m)
  }

  lemma ChunkedCons(batch: seq<Row>, rest: seq<seq<Row>>, m: nat)
    requires |batch| == m >= 1 && Chunked(rest, m)
    ensures Chunked([batch] + rest, m)
  {
  }

  /** The counter of a row-count policy that has counted exactly the pending rows. */
  lemma RowCountRow(verb: string, m: nat, pending: seq<Row>, row: Row)
    requires 1 <= m < TWO32 - 1 && |pending| <= m
    ensures OnRow(verb, RowCount(|pending|, m), pending, row)
         == if |pending| < m then RowStep(RowCount(|pending| + 1, m), [], pending + [row], false)
            else RowStep(RowCount(1, m), [pending], [row], false)
  {
    RowCountReply(|pending|, m, |Statement(verb, pending)|, row);
    RowCountReply(0, m, 0, row);
  }

  /** A fresh row-count policy cuts the rows into chunks of its limit. */
  lemma {:induction false} RowCountChunks(verb: string, m: nat, pending: seq<Row>, rows: seq<Row>)
    requires 1 <= m < TWO32 - 1 && |pending| <= m
    ensures var plan := PlanFrom(verb, RowCount(|pending|, m), pending, rows);
            plan.complete && Chunked(plan.batches, m)
    decreases |rows|
  {
    if rows != [] {
      var row := rows[0];
      RowCountRow(verb, m, pending, row);
      if |pending| < m {
        RowCountChunks(verb, m, pending + [row], rows[1..]);
        var rest := PlanFrom(verb, RowCount(|pending| + 1, m), pending + [row], rows[1..]);
        assert [] + rest.batches == rest.batches;
      } else {
        RowCountChunks(verb, m, [row], rows[1..]);
        ChunkedCons(pending, PlanFrom(verb, RowCount(1, m), [row], rows[1..]).batches, m);
      }
    }
  }

  lemma {:induction false} ChunkedLength(batches: seq<seq<Row>>, m: nat)
    requires batches != [] && Chunked(batches, m)
    ensures |Flat(batches)| == (|batches| - 1) * m + |batches[|batches| - 1]|
  {
    if |batches| == 1 {
      assert Flat(batches) == batches[0] + Flat([]);
    } else {
      ChunkedLength(batches[1..], m);
      Distribute(|batches| - 2, 1, m);
    }
  }

  lemma CeilingDivision(n: nat, k: nat, last: nat, m: nat)
    requires 1 <= last <= m && n == (k - 1) * m + last
    ensures (n + m - 1) / m == k
  {
    Distribute(k, 1, m);
    DivModUnique(n + m - 1, k, last - 1, m);
  }

  lemma {:induction false} ChunkCount(batches: seq<seq<Row>>, m: nat)
    requires m >= 1 && Chunked(batches, m)
    ensures |batches| == (|Flat(batches)| + m - 1) / m
  {
    if batches == [] {
      DivModUnique(m - 1, 0, m - 1, m);
    } else {
      ChunkedLength(batches, m);
      CeilingDivision(|Flat(batches)|, |batches|, |batches[|batches| - 1]|, m);
    }
  }

  /** n rows under a fresh limit of m become ceil(n / m) statements. */
  lemma {:induction false} RowCountStatements(verb: string, m: nat, rows: seq<Row>)
    requires 1 <= m < TWO32 - 1
    ensures var plan := PlanFrom(verb, RowCount(0, m), [], rows);
            && plan.complete && Chunked(plan.batches, m)
            && |plan.batches| == (|rows| + m - 1) / m
  {
    RowCountChunks(verb, m, [], rows);
    PlanConserves(verb, RowCount(0, m), [], rows);
    assert [] + rows == rows;
    ChunkCount(PlanFrom(verb, RowCount(0, m), [], rows).batches, m);
  }

  ghost predicate AtMost(batches: seq<seq<Row>>, m: nat) {
    forall i | 0 <= i < |batches| :: |batches[i]| <= m
  }

  lemma ReusedRow(verb: string, cur: nat, m: nat, pending: seq<Row>, row: Row)
    requires |pending| <= cur <= m && 1 <= m < TWO32 - 1
    ensures OnRow(verb, RowCount(cur, m), pending, row)
         == if cur < m then RowStep(RowCount(cur + 1, m), [], pending + [row], false)
            else RowStep(RowCount(1, m), Flush(pending), [row], false)
  {
    RowCountReply(cur, m, |Statement(verb, pending)|, row);
    RowCountReply(0, m, 0, row);
  }

  /** A policy object left over from another run still keeps every statement within its limit. */
  lemma {:induction false} ReusedRowCount(verb: string, cur: nat, m: nat, pending: seq<Row>, rows: seq<Row>)
    requires |pending| <= cur <= m && 1 <= m < TWO32 - 1
    ensures var plan := PlanFrom(verb, RowCount(cur, m), pending, rows);
            plan.complete && AtMost(plan.batches, m)
    decreases |rows|
  {
    if rows != [] {
      ReusedRow(verb, cur, m, pending, rows[0]);
      if cur < m {
        ReusedRowCount(verb, cur + 1, m, pending + [rows[0]], rows[1..]);
      } else {
        ReusedRowCount(verb, 1, m, [rows[0]], rows[1..]);
      }
    }
  }

  lemma {:induction false} FullRangeAccepts(verb: string, cur: nat, pending: seq<Row>, rows: seq<Row>)
    requires cur < TWO32
    ensures AcceptsAll(verb, RowCount(cur, TWO32 - 1), pending, rows)
    decreases |rows|
  {
    if rows != [] {
      FullRangeNeverRefuses(cur, |Statement(verb, pending)|, rows[0]);
      FullRangeAccepts(verb, U32(cur + 1), pending + [rows[0]], rows[1..]);
    }
  }

  /** At the limit 2^32 - 1 the counter wraps: one statement gets all rows, within the limit if they are few enough. */
  lemma FullRangeOneStatement(verb: string, cur: nat, rows: seq<Row>)
    requires cur < TWO32 && rows != []
    ensures var plan := PlanFrom(verb, RowCount(cur, TWO32 - 1), [], rows);
            && plan == Plan([rows], true)
            && (AtMost(plan.batches, TWO32 - 1) <==> |rows| <= TWO32 - 1)
  {
    FullRangeAccepts(verb, cur, [], rows);
    AcceptsAllOneBatch(verb, RowCount(cur, TWO32 - 1), [], rows);
    assert [] + rows == rows;
    var plan := PlanFrom(verb, RowCount(cur, TWO32 - 1), [], rows);
    assert plan.batches[0] == rows;
  }

  /** A limit of zero rows is too strict for any row. */
  lemma ZeroRowsTooStrict(verb: string, rows: seq<Row>)
    requires rows != []
    ensures PlanFrom(verb, RowCount(0, 0), [], rows) == Plan([], false)
  {
    RowCountReply(0, 0, 0, rows[0]);
  }

  // ---- Statement lengths ----

  lemma {:induction false} GrownLength(verb: string, pending: seq<Row>, row: Row)
    ensures |Statement(verb, pending + [row])|
         == if pending == [] then |Header(verb, row)| + |Tail(row)| - 2 else |Statement(verb, pending)| + |Tail(row)|
  {
    StatementSnoc(verb, pending, row);
  }

  /** Within the limit; a lone row may pass it by its header, less the two characters of ",(". */
  ghost predicate Fits(verb: string, limit: int, batch: seq<Row>) {
    && (|batch| >= 2 ==> |Statement(verb, batch)| <= limit)
    && (|batch| == 1 ==> |Statement(verb, batch)| <= limit + |Header(verb, batch[0])| - 2)
  }

  ghost predicate AllFit(verb: string, limit: int, batches: seq<seq<Row>>) {
    forall i | 0 <= i < |batches| :: Fits(verb, limit, batches[i])
  }

  lemma {:induction false} MaxPacketRow(verb: string, limit: int, pending: seq<Row>, row: Row)
    requires Fits(verb, limit, pending)
    ensures var s := OnRow(verb, MaxPacket(limit), pending, row);
            && s.policy == MaxPacket(limit)
            && (s.strict <==> |Tail(row)| > limit)
            && Fits(verb, limit, s.pending)
            && s.flushed <= [pending]
  {
    GrownLength(verb, pending, row);
    GrownLength(verb, [], row);
    assert [] + [row] == [row];
  }

  lemma AllFitJoin(verb: string, limit: int, flushed: seq<seq<Row>>, pending: seq<Row>, rest: seq<seq<Row>>)
    requires flushed <= [pending] && Fits(verb, limit, pending) && AllFit(verb, limit, rest)
    ensures AllFit(verb, limit, flushed + rest)
  {
  }

  /** The max-packet policy: statements fit, and the run gives up exactly when some row alone cannot fit. */
  lemma {:induction false} MaxPacketFits(verb: string, limit: int, pending: seq<Row>, rows: seq<Row>)
    requires Fits(verb, limit, pending)
    ensures AllFit(verb, limit, PlanFrom(verb, MaxPacket(limit), pending, rows).batches)
    ensures PlanFrom(verb, MaxPacket(limit), pending, rows).complete
       <==> forall i | 0 <= i < |rows| :: |Tail(rows[i])| <= limit
    decreases |rows|
  {
    if rows != [] {
      var s := OnRow(verb, MaxPacket(limit), pending, rows[0]);
      MaxPacketRow(verb, limit, pending, rows[0]);
      if s.strict {
        AllFitJoin(verb, limit, s.flushed, pending, []);
        assert s.flushed + [] == s.flushed;
      } else {
        var rest := PlanFrom(verb, s.policy, s.pending, rows[1..]);
        MaxPacketFits(verb, limit, s.pending, rows[1..]);
        AllFitJoin(verb, limit, s.flushed, pending, rest.batches);
        AllSplit(rows, limit);
      }
    }
  }

  lemma AllSplit(rows: seq<Row>, limit: int)
    requires rows != [] && |Tail(rows[0])| <= limit
    ensures (forall i | 0 <= i < |rows| :: |Tail(rows[i])| <= limit)
       <==> (forall i | 0 <= i < |rows[1..]| :: |Tail(rows[1..][i])| <= limit)
  {
    if forall i | 0 <= i < |rows[1..]| :: |Tail(rows[1..][i])| <= limit {
      forall i | 0 <= i < |rows|
        ensures |Tail(rows[i])| <= limit
      {
        if i > 0 {
          assert rows[i] == rows[1..][i - 1];
        }
      }
    }
  }

  // ---- When the documented maximum is kept ----

  ghost predicate AllWithin(verb: string, limit: int, batches: seq<seq<Row>>) {
    forall i | 0 <= i < |batches| :: |Statement(verb, batches[i])| <= limit
  }

  /** Each row would fit in a statement of its own. */
  ghost predicate EachWithin(verb: string, limit: int, rows: seq<Row>) {
    forall row | row in rows :: |Statement(verb, [row])| <= limit
  }

  /** Rows of one kind: their statements start with equally long headers. */
  ghost predicate EqualHeaders(verb: string, rows: seq<Row>) {
    forall i, j | 0 <= i < j < |rows| :: |Header(verb, rows[i])| == |Header(verb, rows[j])|
  }

  lemma {:induction false} StatementHoldsHeader(verb: string, batch: seq<Row>)
    requires batch != []
    ensures |Statement(verb, batch)| >= |Header(verb, batch[0])|
  {
    if |batch| > 1 {
      StatementHoldsHeader(verb, batch[..|batch| - 1]);
    }
  }

  /** A row alone needs no more room than in a batch. */
  lemma {:induction false} AloneIsShorter(verb: string, batch: seq<Row>, i: nat)
    requires i < |batch| && |Header(verb, batch[0])| == |Header(verb, batch[i])|
    ensures |Statement(verb, [batch[i]])| <= |Statement(verb, batch)|
  {
    if |batch| == 1 {
      assert [batch[i]] == batch;
    } else {
      var front := batch[..|batch| - 1];
      if i < |front| {
        AloneIsShorter(verb, front, i);
      } else {
        StatementHoldsHeader(verb, front);
      }
    }
  }

  lemma {:induction false} FlatHolds(batches: seq<seq<Row>>, k: nat, row: Row)
    requires k < |batches| && row in batches[k]
    ensures row in Flat(batches)
  {
    if k > 0 {
      FlatHolds(batches[1..], k - 1, row);
    }
  }

  lemma {:induction false} FlatFrom(batches: seq<seq<Row>>, row: Row) returns (k: nat)
    requires row in Flat(batches)
    ensures k < |batches| && row in batches[k]
  {
    if row in batches[0] {
      k := 0;
    } else {
      k := FlatFrom(batches[1..], row);
      k := k + 1;
    }
  }

  lemma {:induction false} WithinCarriesRows(verb: string, limit: int, batches: seq<seq<Row>>, row: Row)
    requires AllWithin(verb, limit, batches) && row in Flat(batches)
    requires forall r | r in Flat(batches) :: |Header(verb, r)| == |Header(verb, row)|
    ensures |Statement(verb, [row])| <= limit
  {
    var k := FlatFrom(batches, row);
    var i :| 0 <= i < |batches[k]| && batches[k][i] == row;
    FlatHolds(batches, k, batches[k][0]);
    AloneIsShorter(verb, batches[k], i);
  }

  lemma {:induction false} RowsKeepWithin(verb: string, limit: int, batches: seq<seq<Row>>)
    requires AllFit(verb, limit, batches) && NonEmpty(batches)
    requires EachWithin(verb, limit, Flat(batches))
    ensures AllWithin(verb, limit, batches)
  {
    forall k | 0 <= k < |batches|
      ensures |Statement(verb, batches[k])| <= limit
    {
      if |batches[k]| == 1 {
        FlatHolds(batches, k, batches[k][0]);
        assert batches[k] == [batches[k][0]];
      }
    }
  }

  lemma SameHeader(verb: string, rows: seq<Row>, r: Row, q: Row)
    requires EqualHeaders(verb, rows) && r in rows && q in rows
    ensures |Header(verb, r)| == |Header(verb, q)|
  {
  }

  lemma {:induction false} WithinCarriesAll(verb: string, limit: int, rows: seq<Row>, batches: seq<seq<Row>>)
    requires EqualHeaders(verb, rows) && Flat(batches) <= rows && AllWithin(verb, limit, batches)
    ensures EachWithin(verb, limit, Flat(batches))
  {
    forall row | row in Flat(batches)
      ensures |Statement(verb, [row])| <= limit
    {
      forall r | r in Flat(batches)
        ensures |Header(verb, r)| == |Header(verb, row)|
      {
        SameHeader(verb, rows, r, row);
      }
      WithinCarriesRows(verb, limit, batches, row);
    }
  }

  /** No statement passes the documented maximum exactly when no row that was carried passes it alone. */
  lemma {:induction false} CarriedWithinIff(verb: string, limit: int, rows: seq<Row>)
    requires EqualHeaders(verb, rows)
    ensures var batches := PlanFrom(verb, MaxPacket(limit), [], rows).batches;
            AllWithin(verb, limit, batches) <==> EachWithin(verb, limit, Flat(batches))
  {
    var batches := PlanFrom(verb, MaxPacket(limit), [], rows).batches;
    MaxPacketFits(verb, limit, [], rows);
    PlanConserves(verb, MaxPacket(limit), [], rows);
    assert [] + rows == rows;
    if AllWithin(verb, limit, batches) {
      WithinCarriesAll(verb, limit, rows, batches);
    } else if EachWithin(verb, limit, Flat(batches)) {
      RowsKeepWithin(verb, limit, batches);
    }
  }

  lemma {:induction false} EachWithinTails(verb: string, limit: int, rows: seq<Row>)
    requires EachWithin(verb, limit, rows)
    ensures forall i | 0 <= i < |rows| :: |Tail(rows[i])| <= limit
  {
    forall i | 0 <= i < |rows|
      ensures |Tail(rows[i])| <= limit
    {
      assert |Statement(verb, [rows[i]])| <= limit;
    }
  }

  /** All rows are sent, in statements within the maximum, exactly when each row would fit in a statement of its own. */
  lemma {:induction false} MaxPacketWithinIff(verb: string, limit: int, rows: seq<Row>)
    requires EqualHeaders(verb, rows)
    ensures var plan := PlanFrom(verb, MaxPacket(limit), [], rows);
            plan.complete && AllWithin(verb, limit, plan.batches) <==> EachWithin(verb, limit, rows)
  {
    var plan := PlanFrom(verb, MaxPacket(limit), [], rows);
    assert plan.complete ==> Flat(plan.batches) == rows by {
      PlanConserves(verb, MaxPacket(limit), [], rows);
      assert [] + rows == rows;
    }
    if EachWithin(verb, limit, rows) {
      EachWithinTails(verb, limit, rows);
      assert plan.complete by { MaxPacketFits(verb, limit, [], rows); }
    }
    CarriedWithinIff(verb, limit, rows);
  }

  /** A maximum of 4 lets ",(1)" pass, and the statement that carries it has 30 characters. */
  lemma PacketWitness(row: Row)
    requires row == Row("t", "a", "1")
    ensures PlanFrom("INSERT", MaxPacket(4), [], [row]) == Plan([[row]], true)
    ensures |Statement("INSERT", [row])| == 30
  {
    assert [] + [row] == [row];
    assert [row][1..] == [];
  }

  // ---- The size threshold ----

  /** Below the threshold before its last row was added. */
  ghost predicate BelowBeforeLast(verb: string, limit: int, batch: seq<Row>) {
    |batch| >= 2 ==> |Statement(verb, batch[..|batch| - 1])| < limit
  }

  ghost predicate AllBelowBeforeLast(verb: string, limit: int, batches: seq<seq<Row>>) {
    forall i | 0 <= i < |batches| :: BelowBeforeLast(verb, limit, batches[i])
  }

  lemma {:induction false} ThresholdRow(verb: string, limit: int, pending: seq<Row>, row: Row)
    requires BelowBeforeLast(verb, limit, pending)
    ensures var s := OnRow(verb, SizeThreshold(limit), pending, row);
            && s.policy == SizeThreshold(limit)
            && (s.strict <==> limit <= 0)
            && BelowBeforeLast(verb, limit, s.pending)
            && s.flushed <= [pending]
  {
    assert (pending + [row])[..|pending|] == pending;
  }

  /** The size-threshold policy passes its threshold by one row at most, and gives up only on a useless threshold. */
  lemma {:induction false} ThresholdOvershoot(verb: string, limit: int, pending: seq<Row>, rows: seq<Row>)
    requires BelowBeforeLast(verb, limit, pending)
    ensures AllBelowBeforeLast(verb, limit, PlanFrom(verb, SizeThreshold(limit), pending, rows).batches)
    ensures PlanFrom(verb, SizeThreshold(limit), pending, rows).complete <==> rows == [] || limit > 0
    decreases |rows|
  {
    if rows != [] {
      var s := OnRow(verb, SizeThreshold(limit), pending, rows[0]);
      ThresholdRow(verb, limit, pending, rows[0]);
      if !s.strict {
        ThresholdOvershoot(verb, limit, s.pending, rows[1..]);
      }
    }
  }

  // ---- A statement is closed only when it must be ----

  /** What is pending becomes the beginning of the first batch. */
  lemma {:induction false} FirstBatchStarts(verb: string, p: Policy, pending: seq<Row>, rows: seq<Row>)
    requires pending != []
    ensures var batches := PlanFrom(verb, p, pending, rows).batches;
            batches != [] && pending <= batches[0]
    decreases |rows|
  {
    if rows != [] {
      var s := OnRow(verb, p, pending, rows[0]);
      if s.flushed == [] {
        FirstBatchStarts(verb, s.policy, s.pending, rows[1..]);
      }
    }
  }

  /** Every statement but the last has reached the threshold. */
  ghost predicate ClosedAtThreshold(verb: string, limit: int, batches: seq<seq<Row>>) {
    forall i | 0 <= i < |batches| - 1 :: |Statement(verb, batches[i])| >= limit
  }

  /** The statement has no room for the first of the next rows, its comma and its parentheses. */
  ghost predicate NoRoom(verb: string, limit: int, batch: seq<Row>, next: seq<Row>) {
    next != [] && |Statement(verb, batch)| + |next[0].values| + 3 > limit
  }

  /** No statement but the last has room for the row that starts the next one. */
  ghost predicate ClosedWhenFull(verb: string, limit: int, batches: seq<seq<Row>>) {
    forall i, j | 0 <= i < j == i + 1 < |batches| :: NoRoom(verb, limit, batches[i], batches[j])
  }

  lemma {:induction false} ThresholdFlushes(verb: string, limit: int, pending: seq<Row>, row: Row)
    ensures var s := OnRow(verb, SizeThreshold(limit), pending, row);
            && s.policy == SizeThreshold(limit)
            && (s.flushed == [] || (s.flushed == [pending] && |Statement(verb, pending)| >= limit))
  {
  }

  lemma AtThresholdJoin(verb: string, limit: int, first: seq<Row>, rest: seq<seq<Row>>)
    requires |Statement(verb, first)| >= limit && ClosedAtThreshold(verb, limit, rest)
    ensures ClosedAtThreshold(verb, limit, [first] + rest)
  {
  }

  /** The size-threshold policy closes a statement only once it has reached the threshold. */
  lemma {:induction false} ThresholdCloses(verb: string, limit: int, pending: seq<Row>, rows: seq<Row>)
    ensures ClosedAtThreshold(verb, limit, PlanFrom(verb, SizeThreshold(limit), pending, rows).batches)
    decreases |rows|
  {
    if rows != [] {
      var s := OnRow(verb, SizeThreshold(limit), pending, rows[0]);
      if !s.strict {
        ThresholdFlushes(verb, limit, pending, rows[0]);
        ThresholdCloses(verb, limit, s.pending, rows[1..]);
        var rest := PlanFrom(verb, s.policy, s.pending, rows[1..]).batches;
        if s.flushed == [] {
          assert [] + rest == rest;
        } else {
          AtThresholdJoin(verb, limit, pending, rest);
        }
      }
    }
  }

  /** The max-packet policy closes a statement only if the next row would pass the maximum. */
  lemma {:induction false} PacketCloses(verb: string, limit: int, pending: seq<Row>, rows: seq<Row>)
    ensures ClosedWhenFull(verb, limit, PlanFrom(verb, MaxPacket(limit), pending, rows).batches)
    decreases |rows|
  {
    if rows != [] {
      var s := OnRow(verb, MaxPacket(limit), pending, rows[0]);
      if !s.strict {
        PacketCloses(verb, limit, s.pending, rows[1..]);
        FirstBatchStarts(verb, s.policy, s.pending, rows[1..]);
        var rest := PlanFrom(verb, s.policy, s.pending, rows[1..]).batches;
        if s.flushed != [] {
          assert rest[0][0] == s.pending[0] == rows[0];
          ClosedJoin(verb, limit, pending, rest);
        }
      }
    }
  }

  lemma ClosedJoin(verb: string, limit: int, first: seq<Row>, rest: seq<seq<Row>>)
    requires rest != [] && NoRoom(verb, limit, first, rest[0]) && ClosedWhenFull(verb, limit, rest)
    ensures ClosedWhenFull(verb, limit, [first] + rest)
  {
    var all := [first] + rest;
    forall i, j | 0 <= i < j == i + 1 < |all|
      ensures NoRoom(verb, limit, all[i], all[j])
    {
      if i > 0 {
        assert all[i] == rest[i - 1] && all[j] == rest[j - 1];
      }
    }
  }
}
