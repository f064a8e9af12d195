/** Which statements a batched insert issues for a list of rows, and what each policy guarantees about them. */
module BatchPlan {
  import opened Arithmetic
  import opened InsertPolicy
  import V = ValueList

  // ---- Statement texts ----

  function Header(verb: string, row: Row): string {
    verb + " INTO `" + row.table + "` (" + row.fields + ") VALUES ("
  }

  /** The statement that carries the given rows. */
  function Statement(verb: string, rows: seq<Row>): string {
    if |rows| == 0 then ""
    else if |rows| == 1 then Header(verb, rows[0]) + rows[0].values + ")"
    else Statement(verb, rows[..|rows| - 1]) + Tail(rows[|rows| - 1])
  }

  lemma {:induction false} StatementSnoc(verb: string, rows: seq<Row>, row: Row)
    ensures Statement(verb, rows + [row])
         == if rows == [] then Header(verb, row) + row.values + ")" else Statement(verb, rows) + Tail(row)
  {
    var all := rows + [row];
    assert all[..|all| - 1] == rows;
  }

  function Values(rows: seq<Row>): (vs: seq<string>)
    ensures |vs| == |rows|
  {
    seq(|rows|, i requires 0 <= i < |rows| => rows[i].values)
  }

  /** The multi-row statement of SQL: the first row names table and fields, then come the value lists. */
  function SqlText(verb: string, rows: seq<Row>): string
    requires rows != []
  {
    verb + " INTO `" + rows[0].table + "` (" + rows[0].fields + ") VALUES (" + V.Join(Values(rows), "),(") + ")"
  }

  /** What is built row by row is that statement. */
  lemma {:induction false} StatementIsSql(verb: string, rows: seq<Row>)
    requires rows != []
    ensures Statement(verb, rows) == SqlText(verb, rows)
    decreases |rows|
  {
    if |rows| > 1 {
      var front, last := rows[..|rows| - 1], rows[|rows| - 1];
      StatementIsSql(verb, front);
      assert Values(rows) == Values(front) + [last.values];
      V.JoinSnoc(Values(front), last.values, "),(");
      var head := verb + " INTO `" + rows[0].table + "` (" + rows[0].fields + ") VALUES (";
      CloseAndReopen(head, V.Join(Values(front), "),("), last.values);
    }
  }

  lemma CloseAndReopen(head: string, joined: string, value: string)
    ensures (head + joined + ")") + (",(" + value + ")") == head + (joined + "),(" + value) + ")"
  {
  }

  /** For rows (1) and (2) of table t with field a. */
  lemma TwoRowText(rows: seq<Row>)
    requires rows == [Row("t", "a", "1"), Row("t", "a", "2")]
    ensures SqlText("INSERT", rows) == "INSERT INTO `t` (a) VALUES (1),(2)"
  {
    assert Values(rows) == ["1"] + ["2"];
    V.JoinSnoc(["1"], "2", "),(");
  }

  function Texts(verb: string, batches: seq<seq<Row>>): (r: seq<string>)
    ensures |r| == |batches|
    ensures forall i | 0 <= i < |r| :: r[i] == Statement(verb, batches[i])
  {
    seq(|batches|, i requires 0 <= i < |batches| => Statement(verb, batches[i]))
  }

  // ---- The plan ----

  /** A pending statement, if there is one. */
  function Flush(pending: seq<Row>): seq<seq<Row>> {
    if pending == [] then [] else [pending]
  }

  /** What one row does: the policy after it, what was flushed before it, what is pending, and whether to give up. */
  datatype RowStep = RowStep(policy: Policy, flushed: seq<seq<Row>>, pending: seq<Row>, strict: bool)

  function OnRow(verb: string, p: Policy, pending: seq<Row>, row: Row): (r: RowStep)
    ensures Sane(p) ==> Sane(r.policy)
  {
    var (first, p1) := CanAdd(p, |Statement(verb, pending)|, row);
    if first then RowStep(p1, [], pending + [row], false)
    else
      var (second, p2) := CanAdd(p1, 0, row);
      if second then RowStep(p2, Flush(pending), [row], false) else RowStep(p2, Flush(pending), [], true)
  }

  /** The batches in order, and whether all rows made it into one. */
  datatype Plan = Plan(batches: seq<seq<Row>>, complete: bool)

  function PlanFrom(verb: string, p: Policy, pending: seq<Row>, rows: seq<Row>): Plan
    decreases |rows|
  {
    if rows == [] then Plan(Flush(pending), true)
    else
      var s := OnRow(verb, p, pending, rows[0]);
      if s.strict then Plan(s.flushed, false)
      else
        var rest := PlanFrom(verb, s.policy, s.pending, rows[1..]);
        Plan(s.flushed + rest.batches, rest.complete)
  }

  // ---- Conservation ----

  function Flat(batches: seq<seq<Row>>): seq<Row> {
    if batches == [] then [] else batches[0] + Flat(batches[1..])
  }

  lemma {:induction false} FlatConcat(a: seq<seq<Row>>, b: seq<seq<Row>>)
    ensures Flat(a + b) == Flat(a) + Flat(b)
  {
    if a == [] {
      assert a + b == b;
    } else {
      FlatConcat(a[1..], b);
      assert (a + b)[1..] == a[1..] + b;
    }
  }

  lemma FlatFlush(pending: seq<Row>)
    ensures Flat(Flush(pending)) == pending
  {
    if pending != [] {
      assert Flat([pending]) == pending + Flat([]);
    }
  }

  /** One row: what was pending and the row itself are flushed or pending afterwards, in order. */
  lemma RowConserved(verb: string, p: Policy, pending: seq<Row>, row: Row)
    ensures var s := OnRow(verb, p, pending, row);
            Flat(s.flushed) + s.pending == if s.strict then pending else pending + [row]
  {
    FlatFlush(pending);
  }

  ghost predicate NonEmpty(batches: seq<seq<Row>>) {
    forall i | 0 <= i < |batches| :: batches[i] != []
  }

  /** The texts of these batches, in order, and nothing else. */
  ghost predicate SqlTexts(texts: seq<string>, verb: string, batches: seq<seq<Row>>) {
    |texts| == |batches| && forall k | 0 <= k < |texts| :: batches[k] != [] && texts[k] == SqlText(verb, batches[k])
  }

  lemma {:induction false} TextsAreSql(verb: string, batches: seq<seq<Row>>)
    requires NonEmpty(batches)
    ensures SqlTexts(Texts(verb, batches), verb, batches)
  {
    forall k | 0 <= k < |batches|
      ensures Texts(verb, batches)[k] == SqlText(verb, batches[k])
    {
      StatementIsSql(verb, batches[k]);
    }
  }

  /** A complete plan carries all the rows exactly once, in order; an incomplete one a proper prefix of them. */
  ghost predicate Conserves(plan: Plan, all: seq<Row>) {
    && NonEmpty(plan.batches)
    && Flat(plan.batches) <= all
    && (plan.complete <==> Flat(plan.batches) == all)
  }

  lemma PrefixShift(a: seq<Row>, b: seq<Row>, c: seq<Row>, all: seq<Row>)
    requires all == a + c && b <= c
    ensures a + b <= all && (a + b == all <==> b == c)
  {
    assert all[|a|..] == c;
    assert (a + b)[|a|..] == b;
  }

  /** Putting flushed batches in front of a conserving plan. */
  lemma ConservesStep(flushed: seq<seq<Row>>, rest: Plan, later: seq<Row>, all: seq<Row>)
    requires NonEmpty(flushed) && Conserves(rest, later) && all == Flat(flushed) + later
    ensures Conserves(Plan(flushed + rest.batches, rest.complete), all)
  {
    FlatConcat(flushed, rest.batches);
    PrefixShift(Flat(flushed), Flat(rest.batches), later, all);
  }

  lemma RowsRegrouped(verb: string, p: Policy, pending: seq<Row>, rows: seq<Row>)
    requires rows != [] && !OnRow(verb, p, pending, rows[0]).strict
    ensures var s := OnRow(verb, p, pending, rows[0]);
            pending + rows == Flat(s.flushed) + (s.pending + rows[1..])
  {
    var s := OnRow(verb, p, pending, rows[0]);
    RowConserved(verb, p, pending, rows[0]);
    Regroup(Flat(s.flushed), s.pending, pending, rows);
  }

  lemma Regroup(a: seq<Row>, b: seq<Row>, c: seq<Row>, rows: seq<Row>)
    requires rows != [] && a + b == c + [rows[0]]
    ensures c + rows == a + (b + rows[1..])
  {
    assert c + rows == (c + [rows[0]]) + rows[1..];
    assert a + (b + rows[1..]) == (a + b) + rows[1..];
  }

  lemma GivesUp(verb: string, p: Policy, pending: seq<Row>, rows: seq<Row>)
    requires rows != [] && OnRow(verb, p, pending, rows[0]).strict
    ensures Conserves(PlanFrom(verb, p, pending, rows), pending + rows)
  {
    FlatFlush(pending);
  }

  lemma {:induction false} PlanConserves(verb: string, p: Policy, pending: seq<Row>, rows: seq<Row>)
    ensures Conserves(PlanFrom(verb, p, pending, rows), pending + rows)
    decreases |rows|
  {
    if rows == [] {
      FlatFlush(pending);
      assert pending + rows == pending;
    } else {
      var s := OnRow(verb, p, pending, rows[0]);
      if s.strict {
        GivesUp(verb, p, pending, rows);
      } else {
        var rest := PlanFrom(verb, s.policy, s.pending, rows[1..]);
        PlanConserves(verb, s.policy, s.pending, rows[1..]);
        RowsRegrouped(verb, p, pending, rows);
        ConservesStep(s.flushed, rest, s.pending + rows[1..], pending + rows);
      }
    }
  }

  /** Whenever one complete statement is issued, it is the one that `insert(first, last)` builds. */
  lemma SingleStatement(verb: string, p: Policy, rows: seq<Row>)
    requires rows != []
    ensures var plan := PlanFrom(verb, p, [], rows);
            plan.complete && |plan.batches| == 1 ==>
              plan.batches == [rows] && Texts(verb, plan.batches) == [Statement(verb, rows)]
  {
    var plan := PlanFrom(verb, p, [], rows);
    PlanConserves(verb, p, [], rows);
    if plan.complete && |plan.batches| == 1 {
      assert plan.batches == [plan.batches[0]];
      assert Flat(plan.batches) == plan.batches[0] + Flat([]);
      assert [] + rows == rows;
      assert plan.batches[0] == rows;
      assert Texts(verb, plan.batches)[0] == Statement(verb, rows);
    }
  }

  /** The policy accepts each row on top of the ones before it. */
  ghost predicate AcceptsAll(verb: string, p: Policy, pending: seq<Row>, rows: seq<Row>)
    decreases |rows|
  {
    rows == [] ||
    (var (ok, q) := CanAdd(p, |Statement(verb, pending)|, rows[0]);
     ok && AcceptsAll(verb, q, pending + [rows[0]], rows[1..]))
  }

  lemma {:induction false} AcceptsAllOneBatch(verb: string, p: Policy, pending: seq<Row>, rows: seq<Row>)
    requires AcceptsAll(verb, p, pending, rows)
    ensures PlanFrom(verb, p, pending, rows) == Plan(Flush(pending + rows), true)
    decreases |rows|
  {
    if rows == [] {
      assert pending + rows == pending;
    } else {
      var (ok, q) := CanAdd(p, |Statement(verb, pending)|, rows[0]);
      var rest := PlanFrom(verb, q, pending + [rows[0]], rows[1..]);
      AcceptsAllOneBatch(verb, q, pending + [rows[0]], rows[1..]);
      assert OnRow(verb, p, pending, rows[0]) == RowStep(q, [], pending + [rows[0]], false);
      assert [] + rest.batches == rest.batches;
      assert pending + rows == (pending + [rows[0]]) + rows[1..];
    }
  }
}
