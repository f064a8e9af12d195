/** Printing of value lists and equal lists, with and without suppressed items. */
module ValueList {

  // ---- What the documentation promises ----

  /** The items with the delimiter between neighbours. */
  function Join(parts: seq<string>, delim: string): string {
    if |parts| == 0 then ""
    else if |parts| == 1 then parts[0]
    else Join(parts[..|parts| - 1], delim) + delim + parts[|parts| - 1]
  }

  /** Those of the first k items whose mask bit is set, in order. */
  function Selected(parts: seq<string>, mask: seq<bool>, k: nat): seq<string>
    requires k <= |parts| && k <= |mask|
  {
    if k == 0 then []
    else Selected(parts, mask, k - 1) + (if mask[k - 1] then [parts[k - 1]] else [])
  }

  /** What is printed in front: a delimiter when the first item is suppressed and a later one is not. */
  function Lead(parts: seq<string>, mask: seq<bool>, delim: string, k: nat): string
    requires k <= |parts| && k <= |mask| && 0 < |mask|
  {
    if !mask[0] && Selected(parts, mask, k) != [] then delim else ""
  }

  /** The text that sparse printing produces. */
  function SparseText(parts: seq<string>, mask: seq<bool>, delim: string): string
    requires 0 < |parts| <= |mask|
  {
    Lead(parts, mask, delim, |parts|) + Join(Selected(parts, mask, |parts|), delim)
  }

  // ---- The loops ----

  /** The stream at the top of round k: the items so far, and the delimiter for item k if it is wanted. */
  ghost predicate AtRound(o: string, parts: seq<string>, mask: seq<bool>, delim: string, k: nat)
    requires k < |parts| <= |mask|
  {
    o == Lead(parts, mask, delim, k) + Join(Selected(parts, mask, k), delim)
         + (if k > 0 && mask[k] then delim else "")
  }

  lemma {:induction false} SelectedEmptyThenFirstSuppressed(parts: seq<string>, mask: seq<bool>, k: nat)
    requires 0 < k <= |parts| && k <= |mask| && Selected(parts, mask, k) == []
    ensures !mask[0]
  {
    if k > 1 {
      SelectedEmptyThenFirstSuppressed(parts, mask, k - 1);
    }
  }

  lemma {:induction false} JoinSnoc(parts: seq<string>, last: string, delim: string)
    ensures Join(parts + [last], delim) == if parts == [] then last else Join(parts, delim) + delim + last
  {
    var all := parts + [last];
    assert all[..|all| - 1] == parts;
  }

  /** Joining puts one delimiter between any two neighbouring groups, and nothing around a single item. */
  lemma {:induction false} JoinConcat(a: seq<string>, b: seq<string>, delim: string)
    requires a != [] && b != []
    ensures Join(a + b, delim) == Join(a, delim) + delim + Join(b, delim)
    ensures |b| == 1 ==> Join(b, delim) == b[0]
    decreases |b|
  {
    var last := b[|b| - 1];
    if |b| == 1 {
      assert b == [last];
      JoinSnoc(a, last, delim);
    } else {
      var front := b[..|b| - 1];
      assert a + b == (a + front) + [last];
      JoinSnoc(a + front, last, delim);
      JoinConcat(a, front, delim);
    }
  }

  /** Printing item k, or not, completes round k. */
  lemma {:induction false} RoundEffect(o: string, parts: seq<string>, mask: seq<bool>, delim: string, k: nat)
    requires k < |parts| <= |mask| && AtRound(o, parts, mask, delim, k)
    ensures (if mask[k] then o + parts[k] else o)
         == Lead(parts, mask, delim, k + 1) + Join(Selected(parts, mask, k + 1), delim)
  {
    var before := Selected(parts, mask, k);
    if mask[k] {
      JoinSnoc(before, parts[k], delim);
      if k > 0 && before == [] {
        SelectedEmptyThenFirstSuppressed(parts, mask, k);
      }
    } else {
      assert Selected(parts, mask, k + 1) == before;
    }
  }

  /** The loop of `value_list_b`. */
  method PrintValueListB(list: seq<string>, fields: seq<bool>, delim: string, manip: string -> string)
    returns (o: string)
    requires 0 < |list| <= |fields|
    ensures o == SparseText(seq(|list|, i requires 0 <= i < |list| => manip(list[i])), fields, delim)
  {
    ghost var parts := seq(|list|, i requires 0 <= i < |list| => manip(list[i]));
    o := "";
    var i, k := 0, 0;
    while true
      invariant i == k < |list| && AtRound(o, parts, fields, delim, k)
      decreases |list| - i
    {
      RoundEffect(o, parts, fields, delim, k);
      k := k + 1;
      if fields[k - 1] {
        o := o + manip(list[i]);
      }
      i := i + 1;
      if i == |list| {
        break;
      }
      if fields[k] {
        o := o + delim;
      }
    }
  }

  function Min(a: nat, b: nat): nat {
    if a < b then a else b
  }

  /** The pairs "left equl right" over the shorter of two lists. */
  function Pairs(list1: seq<string>, list2: seq<string>, equl: string, manip: string -> string): (p: seq<string>)
    ensures |p| == Min(|list1|, |list2|)
  {
    seq(Min(|list1|, |list2|), i requires 0 <= i < Min(|list1|, |list2|) => list1[i] + equl + manip(list2[i]))
  }

  lemma PairsWritten(list1: seq<string>, list2: seq<string>, equl: string, manip: string -> string, n: nat)
    requires n == if |list1| < |list2| then |list1| else |list2|
    ensures Pairs(list1, list2, equl, manip) == seq(n, i requires 0 <= i < n => list1[i] + equl + manip(list2[i]))
  {
  }

  /** The loop of `equal_list_b`. */
  method PrintEqualListB(list1: seq<string>, list2: seq<string>, fields: seq<bool>,
                         delim: string, equl: string, manip: string -> string)
    returns (o: string)
    requires 0 < |list1| && 0 < |list2| && Min(|list1|, |list2|) <= |fields|
    ensures var n := if |list1| < |list2| then |list1| else |list2|;
            o == SparseText(seq(n, i requires 0 <= i < n => list1[i] + equl + manip(list2[i])), fields, delim)
  {
    ghost var parts := Pairs(list1, list2, equl, manip);
    PairsWritten(list1, list2, equl, manip, |parts|);
    o := "";
    var i, j, k := 0, 0, 0;
    while true
      invariant i == j == k < |parts| && AtRound(o, parts, fields, delim, k)
      decreases |list1| - i
    {
      RoundEffect(o, parts, fields, delim, k);
      k := k + 1;
      if fields[k - 1] {
        var pair := list1[i] + equl + manip(list2[j]);
        assert pair == parts[k - 1];
        o := o + pair;
      }
      assert o == Lead(parts, fields, delim, k) + Join(Selected(parts, fields, k), delim);
      i := i + 1;
      if i == |list1| {
        break;
      }
      j := j + 1;
      if j == |list2| {
        break;
      }
      if fields[k] {
        o := o + delim;
      }
    }
  }

  /** The stream at the top of round i of a plain loop. */
  ghost predicate AtPlainRound(o: string, parts: seq<string>, delim: string, i: nat)
    requires i < |parts|
  {
    o == Join(parts[..i], delim) + (if i > 0 then delim else "")
  }

  lemma {:induction false} PlainRoundEffect(o: string, parts: seq<string>, delim: string, i: nat)
    requires i < |parts| && AtPlainRound(o, parts, delim, i)
    ensures o + parts[i] == Join(parts[..i + 1], delim)
    ensures i + 1 == |parts| ==> o + parts[i] == Join(parts, delim)
  {
    JoinSnoc(parts[..i], parts[i], delim);
    assert parts[..i] + [parts[i]] == parts[..i + 1];
    assert parts[..|parts|] == parts;
  }

  /** The loop of `value_list_ba`. */
  method PrintValueList(list: seq<string>, delim: string, manip: string -> string) returns (o: string)
    requires 0 < |list|
    ensures o == Join(seq(|list|, i requires 0 <= i < |list| => manip(list[i])), delim)
  {
    ghost var parts := seq(|list|, i requires 0 <= i < |list| => manip(list[i]));
    o := "";
    var i := 0;
    while true
      invariant i < |list| && AtPlainRound(o, parts, delim, i)
      decreases |list| - i
    {
      PlainRoundEffect(o, parts, delim, i);
      o := o + manip(list[i]);
      i := i + 1;
      if i == |list| {
        break;
      }
      o := o + delim;
    }
  }

  /** The loop of `equal_list_ba`. */
  method PrintEqualList(list1: seq<string>, list2: seq<string>, delim: string, equl: string,
                        manip: string -> string)
    returns (o: string)
    requires 0 < |list1| && 0 < |list2|
    ensures var n := if |list1| < |list2| then |list1| else |list2|;
            o == Join(seq(n, i requires 0 <= i < n => list1[i] + equl + manip(list2[i])), delim)
  {
    ghost var parts := Pairs(list1, list2, equl, manip);
    PairsWritten(list1, list2, equl, manip, |parts|);
    o := "";
    var i, j := 0, 0;
    while true
      invariant i == j < |parts| && AtPlainRound(o, parts, delim, i)
      decreases |list1| - i
    {
      PlainRoundEffect(o, parts, delim, i);
      o := o + (list1[i] + equl + manip(list2[j]));
      i := i + 1;
      if i == |list1| {
        break;
      }
      j := j + 1;
      if j == |list2| {
        break;
      }
      o := o + delim;
    }
  }

  // ---- Against the promise ----

  /**
   Sparse printing gives the joined selection, as documented, exactly when the first item is kept,
   nothing at all is kept, or the delimiter is empty.
   */
  lemma SparseTextIsJoinIff(parts: seq<string>, mask: seq<bool>, delim: string)
    requires 0 < |parts| <= |mask|
    ensures SparseText(parts, mask, delim) == Join(Selected(parts, mask, |parts|), delim)
       <==> mask[0] || (forall i | 0 <= i < |parts| :: !mask[i]) || delim == ""
  {
    var joined := Join(Selected(parts, mask, |parts|), delim);
    NothingSelected(parts, mask, |parts|);
    if delim != "" {
      assert |delim + joined| != |joined|;
    }
  }

  lemma {:induction false} NothingSelected(parts: seq<string>, mask: seq<bool>, k: nat)
    requires k <= |parts| && k <= |mask|
    ensures Selected(parts, mask, k) == [] <==> forall i | 0 <= i < k :: !mask[i]
  {
    if k > 0 {
      NothingSelected(parts, mask, k - 1);
    }
  }

  /** Each kept item stands behind those kept before it. */
  lemma {:induction false} SelectedAt(parts: seq<string>, mask: seq<bool>, k: nat, i: nat)
    requires i < k <= |parts| && k <= |mask| && mask[i]
    ensures var before := |Selected(parts, mask, i)|;
            before < |Selected(parts, mask, k)| && Selected(parts, mask, k)[before] == parts[i]
  {
    if i + 1 < k {
      SelectedAt(parts, mask, k - 1, i);
    }
  }

  /** With every item kept, sparse and plain printing agree. */
  lemma AllKept(parts: seq<string>, mask: seq<bool>, delim: string)
    requires 0 < |parts| <= |mask| && forall i | 0 <= i < |parts| :: mask[i]
    ensures SparseText(parts, mask, delim) == Join(parts, delim)
  {
    AllSelected(parts, mask, |parts|);
    assert parts[..|parts|] == parts;
  }

  lemma {:induction false} AllSelected(parts: seq<string>, mask: seq<bool>, k: nat)
    requires k <= |parts| && k <= |mask| && forall i | 0 <= i < k :: mask[i]
    ensures Selected(parts, mask, k) == parts[..k]
  {
    if k > 0 {
      AllSelected(parts, mask, k - 1);
    }
  }

  /** List (a, b) with only b kept and delimiter ":" prints ":b", not "b". */
  lemma LeadingDelimiterWitness()
    ensures SparseText(["a", "b"], [false, true], ":") == ":b"
  {
    var parts, mask := ["a", "b"], [false, true];
    assert Selected(parts, mask, 1) == [];
    assert Selected(parts, mask, 2) == ["b"];
  }
}
