/** Batched inserts through one query object, inside a transaction or not. */
module Query {
  import opened InsertPolicy
  import opened BatchPlan

  /** The access controller of a policy: a real transaction, or the stand-in that does nothing. */
  datatype Access = Transactional | Direct

  /** How a batched insert ended; `Threw` is the exception for a policy that is too strict. */
  datatype Outcome = NoRows | Committed | RolledBack | Threw

  /** What became of one row, or of the whole loop. */
  datatype Reply = Added | ExecFailed | TooStrict

  function OutcomeOf(reply: Reply, throwing: bool): Outcome {
    match reply
    case Added => Committed
    case ExecFailed => RolledBack
    case TooStrict => if throwing then Threw else RolledBack
  }

  // ---- The server's replies ----

  /** Of the next n statements from number c on, how many succeed before the first failure. */
  function Leading(succeeds: nat -> bool, c: nat, n: nat): (k: nat)
    ensures k <= n
    decreases n
  {
    if n == 0 || !succeeds(c) then 0 else 1 + Leading(succeeds, c + 1, n - 1)
  }

  ghost predicate AllSucceed(succeeds: nat -> bool, from: nat, to: nat) {
    forall j: nat | from <= j < to :: succeeds(j)
  }

  lemma {:induction false} LeadingExact(succeeds: nat -> bool, c: nat, n: nat, k: nat)
    requires k <= n && AllSucceed(succeeds, c, c + k) && (k < n ==> !succeeds(c + k))
    ensures Leading(succeeds, c, n) == k
    decreases n
  {
    if k > 0 {
      assert c + 1 + (k - 1) == c + k;
      LeadingExact(succeeds, c + 1, n - 1, k - 1);
    }
  }

  // ---- What a prefix of the plan leaves to do ----

  /** The plan for all rows, given the batches done and what the rows from i on still yield. */
  ghost predicate OnPlan(verb: string, plan: Plan, done: seq<seq<Row>>, p: Policy, pending: seq<Row>, left: seq<Row>) {
    var rest := PlanFrom(verb, p, pending, left);
    plan == Plan(done + rest.batches, rest.complete)
  }

  lemma {:induction false} OnPlanStart(verb: string, p: Policy, rows: seq<Row>)
    ensures OnPlan(verb, PlanFrom(verb, p, [], rows), [], p, [], rows)
  {
    var plan := PlanFrom(verb, p, [], rows);
    assert [] + plan.batches == plan.batches;
  }

  lemma {:induction false} OnPlanStep(verb: string, plan: Plan, done: seq<seq<Row>>, p: Policy, pending: seq<Row>,
                                      left: seq<Row>)
    requires left != [] && OnPlan(verb, plan, done, p, pending, left)
    ensures var s := OnRow(verb, p, pending, left[0]);
            && (s.strict ==> plan == Plan(done + s.flushed, false))
            && (!s.strict ==> OnPlan(verb, plan, done + s.flushed, s.policy, s.pending, left[1..]))
            && |done| + |s.flushed| <= |plan.batches|
            && plan.batches[..|done| + |s.flushed|] == done + s.flushed
  {
    var s := OnRow(verb, p, pending, left[0]);
    if !s.strict {
      var rest := PlanFrom(verb, s.policy, s.pending, left[1..]);
      assert done + (s.flushed + rest.batches) == (done + s.flushed) + rest.batches;
    }
  }

  lemma {:induction false} OnPlanEnd(verb: string, plan: Plan, done: seq<seq<Row>>, p: Policy, pending: seq<Row>)
    requires OnPlan(verb, plan, done, p, pending, [])
    ensures plan == Plan(done + Flush(pending), true)
  {
  }

  lemma TextsConcat(verb: string, a: seq<seq<Row>>, b: seq<seq<Row>>)
    ensures Texts(verb, a + b) == Texts(verb, a) + Texts(verb, b)
  {
  }

  // ---- The loop on values ----

  /** What the loop works on: the statement being built, the log, the statements sent, the policy, the empty flag. */
  datatype Site = Site(stream: string, log: seq<string>, calls: nat, policy: Policy, empty: bool)

  /** One call of `insertfrom`: its rows and plan, the server, and the log and statement number it starts from. */
  datatype Job = Job(verb: string, rows: seq<Row>, succeeds: nat -> bool, plan: Plan, base: seq<string>, start: nat)

  /** The statement being built carries the pending rows. */
  ghost predicate Building(verb: string, pending: seq<Row>, site: Site) {
    site.stream == Statement(verb, pending) && (site.empty <==> pending == [])
  }

  /** These batches, and no others, have been executed so far, all successfully. */
  ghost predicate Executed(job: Job, done: seq<seq<Row>>, site: Site) {
    && site.log == job.base + Texts(job.verb, done)
    && site.calls == job.start + |done|
    && AllSucceed(job.succeeds, job.start, job.start + |done|)
  }

  /** After the first i rows: executed batches plus pending statement are exactly those rows, in order. */
  ghost predicate AtRow(job: Job, i: nat, done: seq<seq<Row>>, pending: seq<Row>, site: Site) {
    && i <= |job.rows|
    && Building(job.verb, pending, site)
    && Flat(done) + pending == job.rows[..i]
    && OnPlan(job.verb, job.plan, done, site.policy, pending, job.rows[i..])
    && Executed(job, done, site)
  }

  /** The end: the statements up to the first failure are in the log, and no others were sent after it. */
  ghost predicate Ended(job: Job, site: Site, reply: Reply) {
    var n := |job.plan.batches|;
    var f := Leading(job.succeeds, job.start, n);
    && site.log == job.base + Texts(job.verb, job.plan.batches[..f])
    && site.calls == job.start + (if f < n then f + 1 else f)
    && (reply.ExecFailed? <==> f < n)
    && (reply.Added? <==> job.plan.complete && f == n)
  }

  /** What reaches the log: all batches or none in a transaction, those before the first failure otherwise. */
  ghost predicate Applied(job: Job, throwing: bool, access: Access, outcome: Outcome, log: seq<string>) {
    var n := |job.plan.batches|;
    var f := Leading(job.succeeds, job.start, n);
    && (outcome.Committed? <==> job.plan.complete && f == n)
    && (outcome.Threw? <==> throwing && !job.plan.complete && f == n)
    && log == job.base + (if access.Direct? then Texts(job.verb, job.plan.batches[..f])
                          else if outcome.Committed? then Texts(job.verb, job.plan.batches) else [])
  }

  /** Settling a finished loop: inside a transaction the loop's log started empty. */
  lemma SettledIsApplied(job: Job, inner: Job, site: Site, reply: Reply, throwing: bool, access: Access,
                         log: seq<string>)
    requires inner == (if access.Transactional? then job.(base := []) else job) && Ended(inner, site, reply)
    requires log == if access.Direct? then site.log
                    else job.base + (if reply.Added? then site.log else [])
    ensures Applied(job, throwing, access, OutcomeOf(reply, throwing), log)
  {
    var batches := job.plan.batches;
    assert batches[..|batches|] == batches;
    assert [] + Texts(job.verb, batches) == Texts(job.verb, batches);
  }

  /** What one round does. */
  ghost predicate RowDone(verb: string, succeeds: nat -> bool, row: Row, pending: seq<Row>,
                          before: Site, after: Site, reply: Reply)
  {
    var s := OnRow(verb, before.policy, pending, row);
    if s.flushed != [] && !succeeds(before.calls) then
      reply.ExecFailed? && after.log == before.log && after.calls == before.calls + 1
    else
      && reply == (if s.strict then TooStrict else Added)
      && after.policy == s.policy
      && Building(verb, s.pending, after)
      && after.log == before.log + Texts(verb, s.flushed)
      && after.calls == before.calls + |s.flushed|
  }

  /** What a round does after the policy has refused once. */
  ghost predicate Retried(verb: string, succeeds: nat -> bool, row: Row, pending: seq<Row>,
                          before: Site, after: Site, reply: Reply)
  {
    var (ok, q) := CanAdd(before.policy, 0, row);
    if pending != [] && !succeeds(before.calls) then
      reply.ExecFailed? && after.log == before.log && after.calls == before.calls + 1
    else
      && reply == (if ok then Added else TooStrict)
      && after.policy == q
      && Building(verb, if ok then [row] else [], after)
      && after.log == before.log + Texts(verb, Flush(pending))
      && after.calls == before.calls + |Flush(pending)|
  }

  lemma PrefixOfPlan(batches: seq<seq<Row>>, done: seq<seq<Row>>, more: seq<seq<Row>>)
    requires |done| + |more| <= |batches| && batches[..|done| + |more|] == done + more
    ensures batches[..|done|] == done
  {
  }

  lemma MoreSucceed(succeeds: nat -> bool, start: nat, n: nat, more: seq<seq<Row>>)
    requires AllSucceed(succeeds, start, start + n) && |more| <= 1 && (more != [] ==> succeeds(start + n))
    ensures AllSucceed(succeeds, start, start + n + |more|)
  {
  }

  /** Executing one more batch, or none. */
  lemma ExecutedMore(job: Job, done: seq<seq<Row>>, more: seq<seq<Row>>, before: Site, after: Site)
    requires Executed(job, done, before) && |more| <= 1 && (more != [] ==> job.succeeds(before.calls))
    requires after.log == before.log + Texts(job.verb, more) && after.calls == before.calls + |more|
    ensures Executed(job, done + more, after)
  {
    TextsConcat(job.verb, done, more);
    MoreSucceed(job.succeeds, job.start, |done|, more);
  }

  lemma Shuffle(a: seq<Row>, b: seq<Row>, c: seq<Row>, d: seq<Row>, rows: seq<Row>, i: nat)
    requires i < |rows| && a + d == rows[..i] && b + c == d + [rows[i]]
    ensures (a + b) + c == rows[..i + 1]
  {
    assert (a + b) + c == a + (b + c);
    assert a + (d + [rows[i]]) == (a + d) + [rows[i]];
  }

  /** Rows stay accounted for across one round. */
  lemma ProgressRows(verb: string, p: Policy, done: seq<seq<Row>>, pending: seq<Row>, rows: seq<Row>, i: nat)
    requires i < |rows| && Flat(done) + pending == rows[..i] && !OnRow(verb, p, pending, rows[i]).strict
    ensures var s := OnRow(verb, p, pending, rows[i]); Flat(done + s.flushed) + s.pending == rows[..i + 1]
  {
    var s := OnRow(verb, p, pending, rows[i]);
    RowConserved(verb, p, pending, rows[i]);
    FlatConcat(done, s.flushed);
    Shuffle(Flat(done), Flat(s.flushed), s.pending, pending, rows, i);
  }

  lemma EndedAtFailure(job: Job, done: seq<seq<Row>>, more: seq<seq<Row>>, before: Site, after: Site)
    requires Executed(job, done, before) && !job.succeeds(before.calls)
    requires |more| >= 1 && |done| + |more| <= |job.plan.batches| && job.plan.batches[..|done| + |more|] == done + more
    requires after.log == before.log && after.calls == before.calls + 1
    ensures Ended(job, after, ExecFailed)
  {
    LeadingExact(job.succeeds, job.start, |job.plan.batches|, |done|);
    PrefixOfPlan(job.plan.batches, done, more);
  }

  lemma EndedAtEnd(job: Job, site: Site)
    requires Executed(job, job.plan.batches, site)
    ensures Ended(job, site, if job.plan.complete then Added else TooStrict)
  {
    var batches := job.plan.batches;
    LeadingExact(job.succeeds, job.start, |batches|, |batches|);
    assert batches[..|batches|] == batches;
  }

  /** Not failing, one round moves on by one row, or stops because the policy is too strict. */
  lemma RoundSucceeds(job: Job, i: nat, done: seq<seq<Row>>, pending: seq<Row>, before: Site, after: Site, reply: Reply)
    requires i < |job.rows| && AtRow(job, i, done, pending, before) && !reply.ExecFailed?
    requires RowDone(job.verb, job.succeeds, job.rows[i], pending, before, after, reply)
    ensures var s := OnRow(job.verb, before.policy, pending, job.rows[i]);
            && (reply.Added? ==> AtRow(job, i + 1, done + s.flushed, s.pending, after))
            && (reply.TooStrict? ==> Ended(job, after, TooStrict))
  {
    var s := OnRow(job.verb, before.policy, pending, job.rows[i]);
    var left := job.rows[i..];
    assert left[0] == job.rows[i] && left[1..] == job.rows[i + 1..];
    OnPlanStep(job.verb, job.plan, done, before.policy, pending, left);
    ExecutedMore(job, done, s.flushed, before, after);
    if s.strict {
      EndedAtEnd(job, after);
    } else {
      ProgressRows(job.verb, before.policy, done, pending, job.rows, i);
    }
  }

  lemma RoundFails(job: Job, i: nat, done: seq<seq<Row>>, pending: seq<Row>, before: Site, after: Site)
    requires i < |job.rows| && AtRow(job, i, done, pending, before)
    requires RowDone(job.verb, job.succeeds, job.rows[i], pending, before, after, ExecFailed)
    ensures Ended(job, after, ExecFailed)
  {
    var s := OnRow(job.verb, before.policy, pending, job.rows[i]);
    assert job.rows[i..][0] == job.rows[i];
    OnPlanStep(job.verb, job.plan, done, before.policy, pending, job.rows[i..]);
    EndedAtFailure(job, done, s.flushed, before, after);
  }

  lemma LoopStarts(job: Job, site: Site)
    requires job.plan == PlanFrom(job.verb, site.policy, [], job.rows)
    requires site.stream == "" && site.empty && site.log == job.base && site.calls == job.start
    ensures AtRow(job, 0, [], [], site)
  {
    OnPlanStart(job.verb, site.policy, job.rows);
    assert job.rows[0..] == job.rows;
    assert job.base + Texts(job.verb, []) == job.base;
  }

  /** After the last row, one more statement is sent if anything is pending. */
  lemma LoopEnds(job: Job, done: seq<seq<Row>>, pending: seq<Row>, before: Site, after: Site, reply: Reply)
    requires AtRow(job, |job.rows|, done, pending, before)
    requires if pending == [] then reply == Added && after == before
             else reply == (if job.succeeds(before.calls) then Added else ExecFailed)
                  && after.log == before.log + (if reply.Added? then [before.stream] else [])
                  && after.calls == before.calls + 1
    ensures Ended(job, after, reply)
  {
    assert job.rows[|job.rows|..] == [];
    OnPlanEnd(job.verb, job.plan, done, before.policy, pending);
    if reply.ExecFailed? {
      EndedAtFailure(job, done, [pending], before, after);
    } else {
      assert Texts(job.verb, Flush(pending)) == if pending == [] then [] else [before.stream];
      ExecutedMore(job, done, Flush(pending), before, after);
      EndedAtEnd(job, after);
    }
  }

  // ---- The query object ----

  /** A query object together with the connection it sends its statements through. */
  class QueryBuilder {
    const throwing: bool
    /** The reply of the n-th statement sent; arbitrary, so every server behaviour is covered. */
    const succeeds: nat -> bool
    var calls: nat
    var durable: seq<string>
    var open: bool
    var provisional: seq<string>
    var stream: string

    constructor (replies: nat -> bool, te: bool)
      ensures succeeds == replies && throwing == te
      ensures calls == 0 && durable == [] && !open && stream == ""
    {
      succeeds, throwing := replies, te;
      calls, durable, open, provisional, stream := 0, [], false, [], "";
    }

    /** Where executed statements go: into the open transaction, or straight into the database. */
    ghost function Log(): seq<string>
      reads this
    {
      if open then provisional else durable
    }

    method Begin()
      requires !open
      modifies this`open, this`provisional
      ensures open && provisional == []
    {
      open, provisional := true, [];
    }

    method Commit()
      requires open
      modifies this`durable, this`open, this`provisional
      ensures !open && durable == old(durable) + old(provisional)
    {
      durable, open, provisional := durable + provisional, false, [];
    }

    method Rollback()
      requires open
      modifies this`open, this`provisional
      ensures !open
    {
      open, provisional := false, [];
    }

    method Reset()
      modifies this`stream
      ensures stream == ""
    {
      stream := "";
    }

    /** Executes the built statement and empties it. */
    method Exec() returns (ok: bool)
      modifies this
      ensures stream == ""
      ensures ok == succeeds(old(calls)) && calls == old(calls) + 1 && open == old(open)
      ensures Log() == old(Log()) + (if ok then [old(stream)] else [])
      ensures open ==> durable == old(durable)
    {
      ok := succeeds(calls);
      calls := calls + 1;
      if ok {
        if open {
          provisional := provisional + [stream];
        } else {
          durable := durable + [stream];
        }
      }
      stream := "";
    }

    /** `insert(first, last)`. */
    method InsertRange(rows: seq<Row>)
      modifies this`stream
      ensures stream == Statement("INSERT", rows)
      ensures stream == if rows == [] then "" else SqlText("INSERT", rows)
    {
      Reset();
      if rows != [] {
        stream := "INSERT INTO `" + rows[0].table + "` (" + rows[0].fields + ") VALUES (" + rows[0].values + ")";
        AddRest(rows);
        StatementIsSql("INSERT", rows);
      }
    }

    /** The loop over the rows after the first. */
    method AddRest(rows: seq<Row>)
      requires rows != [] && stream == Statement("INSERT", rows[..1])
      modifies this`stream
      ensures stream == Statement("INSERT", rows)
    {
      var i := 1;
      while i < |rows|
        invariant 1 <= i <= |rows| && stream == Statement("INSERT", rows[..i])
      {
        StatementSnoc("INSERT", rows[..i], rows[i]);
        assert rows[..i] + [rows[i]] == rows[..i + 1];
        stream := stream + (",(" + rows[i].values + ")");
        i := i + 1;
      }
      assert rows[..|rows|] == rows;
    }

    /** Appends one row to the statement, with the header if it is the first. */
    method Append(verb: string, row: Row, empty: bool, ghost pending: seq<Row>)
      requires stream == Statement(verb, pending) && (empty <==> pending == [])
      modifies this`stream
      ensures stream == Statement(verb, pending + [row])
    {
      StatementSnoc(verb, pending, row);
      if empty {
        stream := stream + (verb + " INTO `" + row.table + "` (" + row.fields + ") VALUES (");
        stream := stream + row.values + ")";
      } else {
        stream := stream + (",(" + row.values + ")");
      }
    }

    ghost function Snap(p: Policy, empty: bool): Site
      reads this
    {
      Site(stream, Log(), calls, p, empty)
    }

    /** One round of the loop of `insertfrom`; `pending` are the rows in the statement being built. */
    method AddRow(verb: string, row: Row, policy: InsertPolicy, empty: bool, ghost pending: seq<Row>)
      returns (reply: Reply, stillEmpty: bool)
      requires Building(verb, pending, Snap(policy.state, empty))
      modifies this, policy
      ensures open == old(open) && (open ==> durable == old(durable))
      ensures RowDone(verb, succeeds, row, pending, old(Snap(policy.state, empty)), Snap(policy.state, stillEmpty),
                      reply)
      ensures Sane(old(policy.state)) ==> Sane(policy.state)
    {
      var ok := policy.Ask(|stream|, row);
      if ok {
        Append(verb, row, empty, pending);
        return Added, false;
      }
      reply, stillEmpty := SendAndRetry(verb, row, policy, empty, pending);
    }

    /** The other branch of the loop: execute what is pending, and ask the policy again. */
    method SendAndRetry(verb: string, row: Row, policy: InsertPolicy, empty: bool, ghost pending: seq<Row>)
      returns (reply: Reply, stillEmpty: bool)
      requires Building(verb, pending, Snap(policy.state, empty))
      modifies this, policy
      ensures open == old(open) && (open ==> durable == old(durable))
      ensures Retried(verb, succeeds, row, pending, old(Snap(policy.state, empty)), Snap(policy.state, stillEmpty),
                      reply)
      ensures Sane(old(policy.state)) ==> Sane(policy.state)
    {
      stillEmpty := empty;
      if !empty {
        assert Texts(verb, Flush(pending)) == [stream];
        var sent := Exec();
        if !sent {
          return ExecFailed, stillEmpty;
        }
        stillEmpty := true;
      }
      var ok := policy.Ask(|stream|, row);
      if ok {
        assert [] + [row] == [row];
        Append(verb, row, stillEmpty, []);
        return Added, false;
      }
      return TooStrict, stillEmpty;
    }

    /** The loop of `insertfrom` and the statement after it. */
    method RunRows(verb: string, rows: seq<Row>, policy: InsertPolicy) returns (reply: Reply)
      requires stream == ""
      modifies this, policy
      ensures open == old(open) && (open ==> durable == old(durable))
      ensures Sane(old(policy.state)) ==> Sane(policy.state)
      ensures Ended(old(JobOf(verb, rows, policy.state)), Snap(policy.state, true), reply)
    {
      ghost var job := JobOf(verb, rows, policy.state);
      ghost var done, pending;
      var empty;
      LoopStarts(job, Snap(policy.state, true));
      reply, empty, done, pending := Loop(verb, rows, policy, job);
      if reply.Added? {
        reply := LastStatement(empty, job, done, pending, policy.state);
      }
    }

    /** Round after round, until the rows end or a round fails. */
    method Loop(verb: string, rows: seq<Row>, policy: InsertPolicy, ghost job: Job)
      returns (reply: Reply, empty: bool, ghost done: seq<seq<Row>>, ghost pending: seq<Row>)
      requires job.rows == rows && job.verb == verb && job.succeeds == succeeds
      requires AtRow(job, 0, [], [], Snap(policy.state, true))
      modifies this, policy
      ensures open == old(open) && (open ==> durable == old(durable))
      ensures Sane(old(policy.state)) ==> Sane(policy.state)
      ensures if reply.Added? then AtRow(job, |rows|, done, pending, Snap(policy.state, empty))
              else Ended(job, Snap(policy.state, true), reply)
    {
      reply, empty, done, pending := Added, true, [], [];
      var i := 0;
      while i < |rows| && reply.Added?
        invariant i <= |rows| && open == old(open) && (open ==> durable == old(durable))
        invariant Sane(old(policy.state)) ==> Sane(policy.state)
        invariant if reply.Added? then AtRow(job, i, done, pending, Snap(policy.state, empty))
                  else Ended(job, Snap(policy.state, true), reply)
      {
        reply, empty, done, pending := Round(policy, i, rows, verb, empty, job, done, pending);
        i := i + 1;
      }
    }

    /** The statement after the loop. */
    method LastStatement(empty: bool, ghost job: Job, ghost done: seq<seq<Row>>, ghost pending: seq<Row>,
                         ghost p: Policy)
      returns (reply: Reply)
      requires AtRow(job, |job.rows|, done, pending, Snap(p, empty)) && job.succeeds == succeeds
      modifies this
      ensures open == old(open) && (open ==> durable == old(durable))
      ensures Ended(job, Snap(p, true), reply)
    {
      ghost var before := Snap(p, empty);
      reply := Added;
      if !empty {
        var ok := Exec();
        reply := if ok then Added else ExecFailed;
      }
      LoopEnds(job, done, pending, before, Snap(p, empty), reply);
    }

    /** One round, and what it does to the plan. */
    method Round(policy: InsertPolicy, i: nat, rows: seq<Row>, verb: string, empty: bool, ghost job: Job,
                 ghost done: seq<seq<Row>>, ghost pending: seq<Row>)
      returns (reply: Reply, stillEmpty: bool, ghost done': seq<seq<Row>>, ghost pending': seq<Row>)
      requires i < |rows| && job.rows == rows && job.verb == verb && job.succeeds == succeeds
      requires AtRow(job, i, done, pending, Snap(policy.state, empty))
      modifies this, policy
      ensures open == old(open) && (open ==> durable == old(durable))
      ensures Sane(old(policy.state)) ==> Sane(policy.state)
      ensures if reply.Added? then AtRow(job, i + 1, done', pending', Snap(policy.state, stillEmpty))
              else Ended(job, Snap(policy.state, true), reply)
    {
      ghost var before := Snap(policy.state, empty);
      ghost var s := OnRow(verb, before.policy, pending, rows[i]);
      done', pending' := done + s.flushed, s.pending;
      reply, stillEmpty := AddRow(verb, rows[i], policy, empty, pending);
      if reply.ExecFailed? {
        RoundFails(job, i, done, pending, before, Snap(policy.state, stillEmpty));
      } else {
        RoundSucceeds(job, i, done, pending, before, Snap(policy.state, stillEmpty), reply);
      }
    }

    ghost function JobOf(verb: string, rows: seq<Row>, p: Policy): Job
      reads this
    {
      Job(verb, rows, succeeds, PlanFrom(verb, p, [], rows), Log(), calls)
    }

    /** `insertfrom` and `replacefrom`, which differ in the verb only. */
    method BatchFrom(verb: string, rows: seq<Row>, policy: InsertPolicy, access: Access) returns (outcome: Outcome)
      requires access.Transactional? ==> !open
      modifies this, policy
      ensures open == old(open) && (open ==> durable == old(durable))
      ensures Sane(old(policy.state)) ==> Sane(policy.state)
      ensures outcome.NoRows? <==> rows == []
      ensures rows == [] ==> Log() == old(Log()) && calls == old(calls) && stream == ""
      ensures rows != [] ==>
                Applied(old(JobOf(verb, rows, policy.state)), throwing, access, outcome, Log())
    {
      Reset();
      if rows == [] {
        return NoRows;
      }
      outcome := RunInside(verb, rows, policy, access);
    }

    /** Start the transaction, if there is one, run the loop, and settle. */
    method RunInside(verb: string, rows: seq<Row>, policy: InsertPolicy, access: Access) returns (outcome: Outcome)
      requires stream == "" && (access.Transactional? ==> !open)
      modifies this, policy
      ensures open == old(open) && (open ==> durable == old(durable))
      ensures Sane(old(policy.state)) ==> Sane(policy.state)
      ensures !outcome.NoRows?
      ensures Applied(old(JobOf(verb, rows, policy.state)), throwing, access, outcome, Log())
    {
      ghost var job := JobOf(verb, rows, policy.state);
      if access.Transactional? {
        Begin();
      }
      ghost var inner := JobOf(verb, rows, policy.state);
      var reply := RunRows(verb, rows, policy);
      ghost var site := Snap(policy.state, true);
      outcome := Settle(reply, access);
      SettledIsApplied(job, inner, site, reply, throwing, access, Log());
    }

    /** Commit or roll back; an exception leaves the rollback to the transaction's destructor. */
    method Settle(reply: Reply, access: Access) returns (outcome: Outcome)
      requires access.Transactional? ==> open
      modifies this
      ensures outcome == OutcomeOf(reply, throwing)
      ensures calls == old(calls) && open == (access.Direct? && old(open)) && (open ==> durable == old(durable))
      ensures Log() == if access.Direct? then old(Log())
                       else old(durable) + (if outcome.Committed? then old(provisional) else [])
    {
      outcome := OutcomeOf(reply, throwing);
      if access.Transactional? {
        if outcome.Committed? {
          Commit();
        } else {
          Rollback();
        }
      }
    }

    /** With a transaction: committed means every row stored exactly once, in order; otherwise nothing is stored. */
    method InsertFrom(rows: seq<Row>, policy: InsertPolicy) returns (outcome: Outcome, ghost batches: seq<seq<Row>>)
      requires !open
      modifies this, policy
      ensures !open
      ensures outcome.Committed? ==>
                durable == old(durable) + Texts("INSERT", batches) && NonEmpty(batches) && Flat(batches) == rows
      ensures outcome.Committed? ==> SqlTexts(durable[|old(durable)|..], "INSERT", batches)
      ensures !outcome.Committed? ==> durable == old(durable)
      ensures outcome.Committed? <==>
                rows != [] && PlanFrom("INSERT", old(policy.state), [], rows).complete
                && Leading(succeeds, old(calls), |PlanFrom("INSERT", old(policy.state), [], rows).batches|)
                   == |PlanFrom("INSERT", old(policy.state), [], rows).batches|
    {
      batches := PlanFrom("INSERT", policy.state, [], rows).batches;
      PlanConserves("INSERT", policy.state, [], rows);
      assert [] + rows == rows;
      TextsAreSql("INSERT", batches);
      outcome := BatchFrom("INSERT", rows, policy, Transactional);
    }

    method ReplaceFrom(rows: seq<Row>, policy: InsertPolicy) returns (outcome: Outcome, ghost batches: seq<seq<Row>>)
      requires !open
      modifies this, policy
      ensures !open
      ensures outcome.Committed? ==>
                durable == old(durable) + Texts("REPLACE", batches) && NonEmpty(batches) && Flat(batches) == rows
      ensures outcome.Committed? ==> SqlTexts(durable[|old(durable)|..], "REPLACE", batches)
      ensures !outcome.Committed? ==> durable == old(durable)
      ensures outcome.Committed? <==>
                rows != [] && PlanFrom("REPLACE", old(policy.state), [], rows).complete
                && Leading(succeeds, old(calls), |PlanFrom("REPLACE", old(policy.state), [], rows).batches|)
                   == |PlanFrom("REPLACE", old(policy.state), [], rows).batches|
    {
      batches := PlanFrom("REPLACE", policy.state, [], rows).batches;
      PlanConserves("REPLACE", policy.state, [], rows);
      assert [] + rows == rows;
      TextsAreSql("REPLACE", batches);
      outcome := BatchFrom("REPLACE", rows, policy, Transactional);
    }
  }
}
