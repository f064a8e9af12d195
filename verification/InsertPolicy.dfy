/** When a batched insert must start a new statement. */
module InsertPolicy {
  import opened Arithmetic

  /** A record as the query builder prints it: table name, field list and value list. */
  datatype Row = Row(table: string, fields: string, values: string)

  datatype Policy =
    | RowCount(cur: nat, max: nat)
    | SizeThreshold(size: int)
    | MaxPacket(size: int)

  /** Row counters are unsigned 32-bit and never pass their limit. */
  ghost predicate Sane(p: Policy) {
    p.RowCount? ==> p.cur <= p.max < TWO32
  }

  /** The text that one more row adds to a statement. */
  function Tail(row: Row): string {
    ",(" + row.values + ")"
  }

  /** The reply of `can_add` and the policy it leaves; `size` is the length of the statement so far. */
  function CanAdd(p: Policy, size: int, row: Row): (r: (bool, Policy))
    ensures Sane(p) ==> Sane(r.1)
  {
    match p
    case RowCount(cur, max) =>
      if U32(cur + 1) > max then (false, RowCount(0, max)) else (true, RowCount(U32(cur + 1), max))
    case SizeThreshold(limit) => (size < limit, p)
    case MaxPacket(limit) => (size < limit && limit - size >= |Tail(row)|, p)
  }

  class InsertPolicy {
    var state: Policy

    constructor (p: Policy)
      ensures state == p
    {
      state := p;
    }

    method Ask(size: int, row: Row) returns (ok: bool)
      modifies this
      ensures (ok, state) == CanAdd(old(state), size, row)
    {
      match state
      case RowCount(cur, max) =>
        state := RowCount(U32(cur + 1), max);
        if state.cur > max {
          state := RowCount(0, max);
          return false;
        } else {
          return true;
        }
      case SizeThreshold(limit) =>
        return size < limit;
      case MaxPacket(limit) =>
        if size < limit {
          var s := ",(" + row.values + ")";
          return limit - size >= |s|;
        } else {
          return false;
        }
    }
  }

  /** Below the top of the counter's range the increment does not wrap. */
  lemma RowCountReply(cur: nat, max: nat, size: int, row: Row)
    requires cur <= max < TWO32 - 1
    ensures CanAdd(RowCount(cur, max), size, row)
         == if cur < max then (true, RowCount(cur + 1, max)) else (false, RowCount(0, max))
  {
    SmallMod(cur + 1, TWO32);
  }

  /** At the top it does, and the policy never refuses. */
  lemma FullRangeNeverRefuses(cur: nat, size: int, row: Row)
    requires cur < TWO32
    ensures CanAdd(RowCount(cur, TWO32 - 1), size, row).0
  {
  }
}
