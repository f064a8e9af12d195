/** Reference-counted handles: counting refines tracing which objects are still held. */
module RefCounted {
  import opened Arithmetic
  import opened Wrappers

  /** A handle variable of the program, or the unnamed temporary of an assignment. */
  datatype Handle = Named(id: nat) | Temp

  /** The two pointers of a handle: to the object and to the shared count. */
  datatype Slot = Slot(counted: Option<nat>, refs: Option<nat>)

  /**
   The heap as the handles see it. Objects and counts are named by numbers that are never reused;
   `adopted` collects every raw pointer handed in, `destroyed` and `freed` record the deletions in order.
   */
  datatype World = World(
    handles: map<Handle, Slot>, counts: map<nat, nat>, nextCell: nat,
    adopted: set<nat>, destroyed: seq<nat>, freed: seq<nat>)

  const EMPTY := World(map[], map[], 0, {}, [], [])

  // ---- The members of the class, one by one ----

  function Default(w: World, h: Handle): World {
    w.(handles := w.handles[h := Slot(None, None)])
  }

  function FromRaw(w: World, h: Handle, c: Option<nat>): World {
    if c.None? then w.(handles := w.handles[h := Slot(None, None)])
    else w.(handles := w.handles[h := Slot(c, Some(w.nextCell))],
            counts := w.counts[w.nextCell := 1],
            nextCell := w.nextCell + 1,
            adopted := w.adopted + {c.value})
  }

  /** The count of a handle, if it has one, is still allocated and not zero. */
  predicate CountLive(w: World, h: Handle)
    requires h in w.handles
  {
    var r := w.handles[h].refs;
    r.Some? ==> r.value in w.counts && w.counts[r.value] > 0
  }

  function CopyOf(w: World, h: Handle, other: Handle): World
    requires other in w.handles && CountLive(w, other)
  {
    var o := w.handles[other];
    var slot := Slot(o.counted, if o.counted.Some? then o.refs else None);
    var v := w.(handles := w.handles[h := slot]);
    if slot.counted.Some? && slot.refs.Some? then
      var c := slot.refs.value;
      v.(counts := w.counts[c := w.counts[c] + 1])
    else v
  }

  function Destroyed(w: World, h: Handle): World
    requires h in w.handles && CountLive(w, h)
  {
    var slot := w.handles[h];
    var v := w.(handles := w.handles - {h});
    if slot.refs.None? then v
    else
      var c := slot.refs.value;
      if w.counts[c] - 1 == 0 then
        v.(counts := w.counts - {c}, freed := w.freed + [c],
           destroyed := if slot.counted.Some? then w.destroyed + [slot.counted.value] else w.destroyed)
      else v.(counts := w.counts[c := w.counts[c] - 1])
  }

  function Swapped(w: World, h: Handle, k: Handle): World
    requires h in w.handles && k in w.handles
  {
    w.(handles := w.handles[h := w.handles[k]][k := w.handles[h]])
  }

  // ---- The invariant ----

  ghost function Sharing(handles: map<Handle, Slot>, c: nat): set<Handle> {
    set h | h in handles && handles[h].refs == Some(c)
  }

  ghost function Held(handles: map<Handle, Slot>): set<nat> {
    set h | h in handles && handles[h].counted.Some? :: handles[h].counted.value
  }

  ghost predicate Paired(handles: map<Handle, Slot>) {
    forall h | h in handles :: handles[h].counted.Some? <==> handles[h].refs.Some?
  }

  ghost predicate CellsLive(handles: map<Handle, Slot>, counts: map<nat, nat>) {
    forall h | h in handles && handles[h].refs.Some? :: handles[h].refs.value in counts
  }

  /** Two slots share a count exactly when they hold the same object. */
  ghost predicate Agree(s: Slot, t: Slot) {
    s.counted.Some? && t.counted.Some? ==> (s.refs == t.refs <==> s.counted == t.counted)
  }

  ghost predicate OneCellPerObject(handles: map<Handle, Slot>) {
    forall h, k | h in handles && k in handles :: Agree(handles[h], handles[k])
  }

  /** Every allocated count is the number of handles that share it, and not zero. */
  ghost predicate CountsExact(handles: map<Handle, Slot>, counts: map<nat, nat>) {
    forall c | c in counts :: counts[c] == |Sharing(handles, c)| > 0
  }

  /** Objects: held or destroyed, never both, and destroyed at most once. */
  ghost predicate ObjectsExact(handles: map<Handle, Slot>, adopted: set<nat>, destroyed: seq<nat>) {
    && adopted == Held(handles) + Elements(destroyed)
    && Held(handles) !! Elements(destroyed)
    && NoDuplicates(destroyed)
  }

  /** Counts: allocated or freed, never both, and freed at most once. */
  ghost predicate CellsExact(counts: map<nat, nat>, nextCell: nat, freed: seq<nat>) {
    && (forall c: nat :: c < nextCell <==> c in counts || c in freed)
    && (forall c | c in counts :: c !in freed)
    && NoDuplicates(freed)
  }

  ghost predicate Inv(w: World) {
    && Paired(w.handles)
    && CellsLive(w.handles, w.counts)
    && OneCellPerObject(w.handles)
    && CountsExact(w.handles, w.counts)
    && ObjectsExact(w.handles, w.adopted, w.destroyed)
    && CellsExact(w.counts, w.nextCell, w.freed)
  }

  // ---- Counting handles ----

  lemma SharingWith(handles: map<Handle, Slot>, h: Handle, s: Slot, c: nat)
    requires h !in handles
    ensures Sharing(handles[h := s], c) == Sharing(handles, c) + (if s.refs == Some(c) then {h} else {})
    ensures h !in Sharing(handles, c)
  {
  }

  lemma SharingWithout(handles: map<Handle, Slot>, h: Handle, c: nat)
    requires h in handles
    ensures Sharing(handles - {h}, c) == Sharing(handles, c) - {h}
    ensures h in Sharing(handles, c) <==> handles[h].refs == Some(c)
  {
  }

  lemma SharingMoved(handles: map<Handle, Slot>, h: Handle, k: Handle, c: nat)
    requires h in handles && k in handles && handles[h].refs == Some(c) && handles[k].refs != Some(c)
    ensures Sharing(handles[h := handles[k]][k := handles[h]], c) == Sharing(handles, c) - {h} + {k}
    ensures |Sharing(handles[h := handles[k]][k := handles[h]], c)| == |Sharing(handles, c)|
  {
    assert h in Sharing(handles, c) && k !in Sharing(handles, c);
  }

  lemma SharingSwapped(handles: map<Handle, Slot>, h: Handle, k: Handle, c: nat)
    requires h in handles && k in handles
    ensures |Sharing(handles[h := handles[k]][k := handles[h]], c)| == |Sharing(handles, c)|
  {
    if (handles[h].refs == Some(c)) == (handles[k].refs == Some(c)) {
      assert Sharing(handles[h := handles[k]][k := handles[h]], c) == Sharing(handles, c);
    } else if handles[h].refs == Some(c) {
      SharingMoved(handles, h, k, c);
    } else {
      SharingMoved(handles, k, h, c);
      assert handles[h := handles[k]][k := handles[h]] == handles[k := handles[h]][h := handles[k]];
    }
  }

  lemma HeldWith(handles: map<Handle, Slot>, h: Handle, s: Slot)
    requires h !in handles
    ensures Held(handles[h := s]) == Held(handles) + (if s.counted.Some? then {s.counted.value} else {})
  {
    var after := handles[h := s];
    forall x | x in Held(handles)
      ensures x in Held(after)
    {
      var k :| k in handles && handles[k].counted == Some(x);
      assert after[k].counted == Some(x);
    }
    if s.counted.Some? {
      assert after[h].counted == s.counted;
    }
  }

  lemma HeldSwapped(handles: map<Handle, Slot>, h: Handle, k: Handle)
    requires h in handles && k in handles
    ensures Held(handles[h := handles[k]][k := handles[h]]) == Held(handles)
  {
    var after := handles[h := handles[k]][k := handles[h]];
    forall x | x in Held(handles)
      ensures x in Held(after)
    {
      var g :| g in handles && handles[g].counted == Some(x);
      var g' := if g == h then k else if g == k then h else g;
      assert after[g'].counted == Some(x);
    }
  }

  // ---- Adding a handle ----

  /** The counts after one more handle shares cell c. */
  function Bumped(counts: map<nat, nat>, c: Option<nat>): map<nat, nat> {
    if c.None? then counts
    else counts[c.value := (if c.value in counts then counts[c.value] else 0) + 1]
  }

  lemma AddOneCell(handles: map<Handle, Slot>, h: Handle, s: Slot)
    requires h !in handles && OneCellPerObject(handles)
    requires forall k | k in handles :: Agree(handles[k], s)
    ensures OneCellPerObject(handles[h := s])
  {
  }

  lemma DeadCellUnshared(handles: map<Handle, Slot>, counts: map<nat, nat>, c: nat)
    requires CellsLive(handles, counts) && c !in counts
    ensures Sharing(handles, c) == {}
  {
  }

  lemma AddCounts(handles: map<Handle, Slot>, counts: map<nat, nat>, h: Handle, s: Slot)
    requires h !in handles && CellsLive(handles, counts) && CountsExact(handles, counts)
    ensures CountsExact(handles[h := s], Bumped(counts, s.refs))
    ensures CellsLive(handles[h := s], Bumped(counts, s.refs))
  {
    forall c | c in Bumped(counts, s.refs)
      ensures Bumped(counts, s.refs)[c] == |Sharing(handles[h := s], c)| > 0
    {
      SharingWith(handles, h, s, c);
      if c !in counts {
        DeadCellUnshared(handles, counts, c);
      }
    }
  }

  lemma AddObjects(handles: map<Handle, Slot>, adopted: set<nat>, destroyed: seq<nat>, h: Handle, s: Slot)
    requires h !in handles && ObjectsExact(handles, adopted, destroyed)
    requires s.counted.Some? ==> s.counted.value !in destroyed
    ensures ObjectsExact(handles[h := s], adopted + (if s.counted.Some? then {s.counted.value} else {}), destroyed)
  {
    HeldWith(handles, h, s);
  }

  lemma AddCell(counts: map<nat, nat>, nextCell: nat, freed: seq<nat>)
    requires CellsExact(counts, nextCell, freed)
    ensures nextCell !in counts
    ensures CellsExact(Bumped(counts, Some(nextCell)), nextCell + 1, freed)
  {
    assert !(nextCell < nextCell);
  }

  /** v is w with one more handle h, whose slot s refers to a live object through that object's count. */
  ghost predicate Extends(w: World, v: World, h: Handle, s: Slot) {
    && h !in w.handles
    && (s.counted.Some? <==> s.refs.Some?)
    && (s.counted.Some? ==> s.counted.value !in w.destroyed)
    && (forall k | k in w.handles :: Agree(w.handles[k], s))
    && v.handles == w.handles[h := s]
    && v.counts == Bumped(w.counts, s.refs)
    && v.adopted == w.adopted + (if s.counted.Some? then {s.counted.value} else {})
    && v.destroyed == w.destroyed
    && CellsExact(v.counts, v.nextCell, v.freed)
  }

  lemma ExtendsKeepsInv(w: World, v: World, h: Handle, s: Slot)
    requires Inv(w) && Extends(w, v, h, s)
    ensures Inv(v)
  {
    assert OneCellPerObject(v.handles) by { AddOneCell(w.handles, h, s); }
    assert CountsExact(v.handles, v.counts) by { AddCounts(w.handles, w.counts, h, s); }
    assert CellsLive(v.handles, v.counts) by { AddCounts(w.handles, w.counts, h, s); }
    assert ObjectsExact(v.handles, v.adopted, v.destroyed) by { AddObjects(w.handles, w.adopted, w.destroyed, h, s); }
  }

  lemma DefaultExtends(w: World, h: Handle)
    requires h !in w.handles && CellsExact(w.counts, w.nextCell, w.freed)
    ensures Extends(w, Default(w, h), h, Slot(None, None))
  {
  }

  lemma DefaultKeepsInv(w: World, h: Handle)
    requires Inv(w) && h !in w.handles
    ensures Inv(Default(w, h))
  {
    DefaultExtends(w, h);
    ExtendsKeepsInv(w, Default(w, h), h, Slot(None, None));
  }

  lemma NewObjectAgrees(w: World, x: nat)
    requires Inv(w) && x !in w.adopted
    ensures x !in w.destroyed
    ensures forall k | k in w.handles :: Agree(w.handles[k], Slot(Some(x), Some(w.nextCell)))
  {
    AddCell(w.counts, w.nextCell, w.freed);
    assert x !in Elements(w.destroyed);
    forall k | k in w.handles
      ensures Agree(w.handles[k], Slot(Some(x), Some(w.nextCell)))
    {
      if w.handles[k].counted.Some? {
        assert w.handles[k].counted.value in Held(w.handles);
      }
    }
  }

  lemma FromRawKeepsInv(w: World, h: Handle, c: Option<nat>)
    requires Inv(w) && h !in w.handles && (c.Some? ==> c.value !in w.adopted)
    ensures Inv(FromRaw(w, h, c))
  {
    if c.None? {
      DefaultKeepsInv(w, h);
    } else {
      NewObjectAgrees(w, c.value);
      AddCell(w.counts, w.nextCell, w.freed);
      ExtendsKeepsInv(w, FromRaw(w, h, c), h, Slot(c, Some(w.nextCell)));
    }
  }

  lemma HeldObject(w: World, o: Handle)
    requires o in w.handles && w.handles[o].counted.Some? && ObjectsExact(w.handles, w.adopted, w.destroyed)
    ensures w.handles[o].counted.value in w.adopted && w.handles[o].counted.value !in w.destroyed
  {
    var x := w.handles[o].counted.value;
    assert x in Held(w.handles);
    assert x !in Elements(w.destroyed);
  }

  lemma CellLive(w: World, h: Handle)
    requires Inv(w) && h in w.handles
    ensures CountLive(w, h)
  {
  }

  lemma SameCells(counts: map<nat, nat>, counts': map<nat, nat>, nextCell: nat, freed: seq<nat>)
    requires CellsExact(counts, nextCell, freed) && counts'.Keys == counts.Keys
    ensures CellsExact(counts', nextCell, freed)
  {
    assert forall c :: c in counts' <==> c in counts'.Keys;
    assert forall c :: c in counts <==> c in counts.Keys;
  }

  lemma CopyExtends(w: World, h: Handle, o: Handle, x: nat, c: nat)
    requires h !in w.handles && o in w.handles && w.handles[o] == Slot(Some(x), Some(c)) && CountLive(w, o)
    requires x in w.adopted && x !in w.destroyed
    requires OneCellPerObject(w.handles) && CellsExact(w.counts, w.nextCell, w.freed)
    ensures Extends(w, CopyOf(w, h, o), h, w.handles[o])
  {
    var v := CopyOf(w, h, o);
    assert w.adopted + {x} == w.adopted;
    SameCells(w.counts, v.counts, w.nextCell, w.freed);
  }

  lemma CopyKeepsInv(w: World, h: Handle, o: Handle)
    requires Inv(w) && h !in w.handles && o in w.handles
    ensures CountLive(w, o) && Inv(CopyOf(w, h, o))
  {
    CellLive(w, o);
    var s := w.handles[o];
    if s.counted.Some? {
      HeldObject(w, o);
      CopyExtends(w, h, o, s.counted.value, s.refs.value);
      ExtendsKeepsInv(w, CopyOf(w, h, o), h, s);
    } else {
      DefaultKeepsInv(w, h);
    }
  }

  // ---- Removing a handle ----

  lemma RemoveOneCell(handles: map<Handle, Slot>, h: Handle)
    requires OneCellPerObject(handles) && Paired(handles)
    ensures OneCellPerObject(handles - {h}) && Paired(handles - {h})
  {
  }

  /** The counts after one handle fewer shares cell c. */
  function Dropped(counts: map<nat, nat>, c: nat): map<nat, nat>
    requires c in counts && counts[c] > 0
  {
    if counts[c] == 1 then counts - {c} else counts[c := counts[c] - 1]
  }

  lemma RemoveCounts(handles: map<Handle, Slot>, counts: map<nat, nat>, h: Handle, c: nat)
    requires CellsLive(handles, counts) && CountsExact(handles, counts)
    requires h in handles && handles[h].refs == Some(c)
    ensures c in counts && counts[c] > 0 && CountsExact(handles - {h}, Dropped(counts, c))
  {
    SharingWithout(handles, h, c);
    forall d | d in Dropped(counts, c)
      ensures Dropped(counts, c)[d] == |Sharing(handles - {h}, d)| > 0
    {
      SharingWithout(handles, h, d);
    }
  }

  lemma LastSharer(handles: map<Handle, Slot>, h: Handle, c: nat, k: Handle)
    requires h in handles && handles[h].refs == Some(c) && |Sharing(handles, c)| == 1
    requires k in handles && handles[k].refs == Some(c)
    ensures k == h
  {
    assert {h} <= Sharing(handles, c);
    SubsetOfEqualSize({h}, Sharing(handles, c));
    assert k in Sharing(handles, c);
  }

  lemma RemoveLive(handles: map<Handle, Slot>, counts: map<nat, nat>, h: Handle, c: nat)
    requires CellsLive(handles, counts) && CountsExact(handles, counts)
    requires h in handles && handles[h].refs == Some(c)
    ensures c in counts && counts[c] > 0 && CellsLive(handles - {h}, Dropped(counts, c))
  {
    forall k | k in handles - {h} && handles[k].refs.Some?
      ensures counts[c] == |Sharing(handles, c)| && handles[k].refs.value in Dropped(counts, c)
    {
      if handles[k].refs == Some(c) && counts[c] == 1 {
        LastSharer(handles, h, c, k);
      }
    }
  }

  /** While another handle shares the count, the set of held objects stays. */
  lemma HeldStays(handles: map<Handle, Slot>, h: Handle, k: Handle)
    requires h in handles && k in handles && k != h && handles[k].counted == handles[h].counted
    ensures Held(handles - {h}) == Held(handles)
  {
    forall x | x in Held(handles)
      ensures x in Held(handles - {h})
    {
      var g :| g in handles && handles[g].counted == Some(x);
      var g' := if g == h then k else g;
      assert (handles - {h})[g'].counted == Some(x);
    }
  }

  /** When no other handle holds the object, exactly that object is no longer held. */
  lemma HeldShrinks(handles: map<Handle, Slot>, h: Handle, x: nat)
    requires h in handles && handles[h].counted == Some(x)
    requires forall k | k in handles && k != h :: handles[k].counted != Some(x)
    ensures Held(handles - {h}) == Held(handles) - {x}
  {
    forall y | y in Held(handles) - {x}
      ensures y in Held(handles - {h})
    {
      var g :| g in handles && handles[g].counted == Some(y);
      assert (handles - {h})[g].counted == Some(y);
    }
  }

  lemma AppendDistinct(s: seq<nat>, x: nat)
    requires NoDuplicates(s) && x !in s
    ensures NoDuplicates(s + [x]) && Elements(s + [x]) == Elements(s) + {x}
  {
  }

  lemma RetireObject(handles: map<Handle, Slot>, adopted: set<nat>, destroyed: seq<nat>, h: Handle, x: nat)
    requires ObjectsExact(handles, adopted, destroyed) && h in handles && handles[h].counted == Some(x)
    requires forall k | k in handles && k != h :: handles[k].counted != Some(x)
    ensures ObjectsExact(handles - {h}, adopted, destroyed + [x])
  {
    assert x in Held(handles);
    assert x !in Elements(destroyed);
    HeldShrinks(handles, h, x);
    AppendDistinct(destroyed, x);
  }

  lemma RetireCell(counts: map<nat, nat>, nextCell: nat, freed: seq<nat>, c: nat)
    requires CellsExact(counts, nextCell, freed) && c in counts
    ensures CellsExact(counts - {c}, nextCell, freed + [c])
  {
    AppendDistinct(freed, c);
  }

  lemma RemoveNull(w: World, h: Handle)
    requires Inv(w) && h in w.handles && w.handles[h] == Slot(None, None)
    ensures Inv(w.(handles := w.handles - {h}))
  {
    var rest := w.handles - {h};
    assert OneCellPerObject(rest) && Paired(rest) by { RemoveOneCell(w.handles, h); }
    assert CountsExact(rest, w.counts) by {
      forall c | c in w.counts
        ensures Sharing(rest, c) == Sharing(w.handles, c)
      {
        SharingWithout(w.handles, h, c);
      }
    }
    assert Held(rest) == Held(w.handles) by { HeldWithoutNull(w.handles, h); }
  }

  lemma HeldWithoutNull(handles: map<Handle, Slot>, h: Handle)
    requires h in handles && handles[h].counted == None
    ensures Held(handles - {h}) == Held(handles)
  {
    forall x | x in Held(handles)
      ensures x in Held(handles - {h})
    {
      var g :| g in handles && handles[g].counted == Some(x);
      assert (handles - {h})[g].counted == Some(x);
    }
  }

  /** One of several sharers goes: the count drops, the object stays. */
  lemma RemoveShared(w: World, h: Handle, x: nat, c: nat)
    requires Inv(w) && h in w.handles && w.handles[h] == Slot(Some(x), Some(c))
    requires c in w.counts && w.counts[c] > 1
    ensures Inv(w.(handles := w.handles - {h}, counts := w.counts[c := w.counts[c] - 1]))
  {
    var rest := w.handles - {h};
    var counts := w.counts[c := w.counts[c] - 1];
    assert OneCellPerObject(rest) && Paired(rest) by { RemoveOneCell(w.handles, h); }
    assert CountsExact(rest, counts) by { RemoveCounts(w.handles, w.counts, h, c); }
    assert CellsLive(rest, counts) by { RemoveLive(w.handles, w.counts, h, c); }
    assert CellsExact(counts, w.nextCell, w.freed) by { SameCells(w.counts, counts, w.nextCell, w.freed); }
    var k := AnotherSharer(w.handles, h, c);
    assert Held(rest) == Held(w.handles) by {
      assert Agree(w.handles[k], w.handles[h]);
      HeldStays(w.handles, h, k);
    }
  }

  lemma AnotherSharer(handles: map<Handle, Slot>, h: Handle, c: nat) returns (k: Handle)
    requires h in handles && handles[h].refs == Some(c) && |Sharing(handles, c)| > 1
    ensures k in handles && k != h && handles[k].refs == Some(c)
  {
    var s := Sharing(handles, c);
    assert |s - {h}| > 0;
    k :| k in s - {h};
  }

  /** The last sharer goes: object and count are released together. */
  lemma RemoveLast(w: World, h: Handle, x: nat, c: nat)
    requires Inv(w) && h in w.handles && w.handles[h] == Slot(Some(x), Some(c))
    requires c in w.counts && w.counts[c] == 1
    ensures Inv(w.(handles := w.handles - {h}, counts := w.counts - {c},
                   destroyed := w.destroyed + [x], freed := w.freed + [c]))
  {
    var rest, counts := w.handles - {h}, w.counts - {c};
    assert OneCellPerObject(rest) && Paired(rest) by { RemoveOneCell(w.handles, h); }
    assert CountsExact(rest, counts) by { RemoveCounts(w.handles, w.counts, h, c); }
    assert CellsLive(rest, counts) by { RemoveLive(w.handles, w.counts, h, c); }
    assert CellsExact(counts, w.nextCell, w.freed + [c]) by { RetireCell(w.counts, w.nextCell, w.freed, c); }
    assert ObjectsExact(rest, w.adopted, w.destroyed + [x]) by {
      SoleHolder(w, h, x, c);
      RetireObject(w.handles, w.adopted, w.destroyed, h, x);
    }
  }

  lemma SoleHolder(w: World, h: Handle, x: nat, c: nat)
    requires OneCellPerObject(w.handles) && CountsExact(w.handles, w.counts)
    requires h in w.handles && w.handles[h] == Slot(Some(x), Some(c)) && c in w.counts && w.counts[c] == 1
    ensures forall k | k in w.handles && k != h :: w.handles[k].counted != Some(x)
  {
    forall k | k in w.handles && k != h
      ensures w.handles[k].counted != Some(x)
    {
      assert Agree(w.handles[k], w.handles[h]);
      if w.handles[k].refs == Some(c) {
        LastSharer(w.handles, h, c, k);
      }
    }
  }

  lemma DestroyKeepsInv(w: World, h: Handle)
    requires Inv(w) && h in w.handles
    ensures CountLive(w, h) && Inv(Destroyed(w, h))
  {
    CellLive(w, h);
    var s := w.handles[h];
    if s.refs.None? {
      RemoveNull(w, h);
    } else if w.counts[s.refs.value] == 1 {
      RemoveLast(w, h, s.counted.value, s.refs.value);
    } else {
      RemoveShared(w, h, s.counted.value, s.refs.value);
    }
  }

  // ---- Swapping ----

  lemma SwapOneCell(handles: map<Handle, Slot>, h: Handle, k: Handle)
    requires h in handles && k in handles && OneCellPerObject(handles) && Paired(handles)
    ensures OneCellPerObject(handles[h := handles[k]][k := handles[h]])
    ensures Paired(handles[h := handles[k]][k := handles[h]])
  {
    var after := handles[h := handles[k]][k := handles[h]];
    forall g, g' | g in after && g' in after
      ensures Agree(after[g], after[g'])
    {
      var p, q := Before(h, k, g), Before(h, k, g');
      assert Agree(handles[p], handles[q]);
    }
  }

  /** The handle whose slot g has after the swap. */
  function Before(h: Handle, k: Handle, g: Handle): Handle {
    if g == h then k else if g == k then h else g
  }

  lemma SwapCounts(handles: map<Handle, Slot>, counts: map<nat, nat>, h: Handle, k: Handle)
    requires h in handles && k in handles && CellsLive(handles, counts) && CountsExact(handles, counts)
    ensures CellsLive(handles[h := handles[k]][k := handles[h]], counts)
    ensures CountsExact(handles[h := handles[k]][k := handles[h]], counts)
  {
    forall c | c in counts
      ensures |Sharing(handles[h := handles[k]][k := handles[h]], c)| == |Sharing(handles, c)|
    {
      SharingSwapped(handles, h, k, c);
    }
  }

  lemma SwapKeepsInv(w: World, h: Handle, k: Handle)
    requires Inv(w) && h in w.handles && k in w.handles
    ensures Inv(Swapped(w, h, k))
  {
    var after := w.handles[h := w.handles[k]][k := w.handles[h]];
    assert OneCellPerObject(after) && Paired(after) by { SwapOneCell(w.handles, h, k); }
    assert CellsLive(after, w.counts) && CountsExact(after, w.counts) by { SwapCounts(w.handles, w.counts, h, k); }
    assert ObjectsExact(after, w.adopted, w.destroyed) by { HeldSwapped(w.handles, h, k); }
  }

  // ---- Assignment: build a temporary, swap, let the temporary die ----

  ghost function Assigned(w: World, h: Handle, o: Handle): World
    requires Inv(w) && h in w.handles && o in w.handles && Temp !in w.handles
  {
    CopyKeepsInv(w, Temp, o);
    var a := CopyOf(w, Temp, o);
    SwapKeepsInv(a, Temp, h);
    var b := Swapped(a, Temp, h);
    CellLive(b, Temp);
    Destroyed(b, Temp)
  }

  /** For any raw pointer, managed already or not. */
  ghost function AssignedRaw(w: World, h: Handle, c: Option<nat>): World
    requires Inv(w) && h in w.handles && Temp !in w.handles
  {
    var b := Swapped(FromRaw(w, Temp, c), Temp, h);
    CellLive(w, h);
    Destroyed(b, Temp)
  }

  /** What the handles refer to, forgetting the counts. */
  ghost function Refs(w: World): map<Handle, Option<nat>> {
    map h | h in w.handles :: w.handles[h].counted
  }

  lemma AssignKeepsInv(w: World, h: Handle, o: Handle)
    requires Inv(w) && h in w.handles && o in w.handles && Temp !in w.handles
    ensures Inv(Assigned(w, h, o))
  {
    CopyKeepsInv(w, Temp, o);
    SwapKeepsInv(CopyOf(w, Temp, o), Temp, h);
    DestroyKeepsInv(Swapped(CopyOf(w, Temp, o), Temp, h), Temp);
  }

  lemma AssignRawKeepsInv(w: World, h: Handle, c: Option<nat>)
    requires Inv(w) && h in w.handles && Temp !in w.handles && (c.Some? ==> c.value !in w.adopted)
    ensures Inv(AssignedRaw(w, h, c))
  {
    FromRawKeepsInv(w, Temp, c);
    SwapKeepsInv(FromRaw(w, Temp, c), Temp, h);
    DestroyKeepsInv(Swapped(FromRaw(w, Temp, c), Temp, h), Temp);
  }

  lemma DestroyRefs(w: World, h: Handle)
    requires h in w.handles && CountLive(w, h)
    ensures Refs(Destroyed(w, h)) == Refs(w) - {h}
  {
  }

  lemma CopyRefs(w: World, h: Handle, o: Handle)
    requires o in w.handles && CountLive(w, o)
    ensures Refs(CopyOf(w, h, o)) == Refs(w)[h := Refs(w)[o]]
  {
  }

  lemma SwapRefs(w: World, h: Handle, k: Handle)
    requires h in w.handles && k in w.handles
    ensures Refs(Swapped(w, h, k)) == Refs(w)[h := Refs(w)[k]][k := Refs(w)[h]]
  {
  }

  lemma SwapThenDrop<V>(m: map<Handle, V>, h: Handle, v: V)
    requires h in m && Temp !in m
    ensures var a := m[Temp := v]; a[Temp := a[h]][h := a[Temp]] - {Temp} == m[h := v]
  {
  }

  /** Whatever the temporary held, h holds after the swap, and nothing else changes. */
  lemma SwapDropRefs(w: World, a: World, h: Handle, v: Option<nat>)
    requires h in w.handles && Temp !in w.handles && h in a.handles && Temp in a.handles
    requires Refs(a) == Refs(w)[Temp := v]
    requires CountLive(Swapped(a, Temp, h), Temp)
    ensures Refs(Destroyed(Swapped(a, Temp, h), Temp)) == Refs(w)[h := v]
  {
    SwapRefs(a, Temp, h);
    DestroyRefs(Swapped(a, Temp, h), Temp);
    SwapThenDrop(Refs(w), h, v);
  }

  /** Assigning makes h refer to what o refers to and changes no other handle. */
  lemma AssignRefs(w: World, h: Handle, o: Handle)
    requires Inv(w) && h in w.handles && o in w.handles && Temp !in w.handles
    ensures Refs(Assigned(w, h, o)) == Refs(w)[h := Refs(w)[o]]
  {
    CopyKeepsInv(w, Temp, o);
    CopyRefs(w, Temp, o);
    var a := CopyOf(w, Temp, o);
    SwapKeepsInv(a, Temp, h);
    CellLive(Swapped(a, Temp, h), Temp);
    SwapDropRefs(w, a, h, Refs(w)[o]);
  }

  lemma FromRawRefs(w: World, h: Handle, c: Option<nat>)
    ensures Refs(FromRaw(w, h, c)) == Refs(w)[h := c]
  {
  }

  lemma AssignRawRefs(w: World, h: Handle, c: Option<nat>)
    requires Inv(w) && h in w.handles && Temp !in w.handles
    ensures Refs(AssignedRaw(w, h, c)) == Refs(w)[h := c]
  {
    FromRawRefs(w, Temp, c);
    CellLive(w, h);
    SwapDropRefs(w, FromRaw(w, Temp, c), h, c);
  }

  /** Assigning a handle to itself changes nothing at all. */
  lemma SelfAssign(w: World, h: Handle)
    requires Inv(w) && h in w.handles && Temp !in w.handles
    ensures Assigned(w, h, h) == w
  {
    CopyKeepsInv(w, Temp, h);
    var s := w.handles[h];
    var a := CopyOf(w, Temp, h);
    assert a.handles[Temp] == s;
    var b := Swapped(a, Temp, h);
    assert b.handles - {Temp} == w.handles by { SwapThenDrop(w.handles, h, s); }
    if s.refs.Some? {
      assert b.counts[s.refs.value := w.counts[s.refs.value]] == w.counts;
    }
  }

  // ---- A raw pointer that is already managed ----

  lemma RawResult(w: World, h: Handle, x: nat)
    requires Inv(w) && h in w.handles && Temp !in w.handles
    ensures var v := AssignedRaw(w, h, Some(x));
            && v.handles == w.handles[h := Slot(Some(x), Some(w.nextCell))]
            && w.destroyed <= v.destroyed
  {
    CellLive(w, h);
    var a := FromRaw(w, Temp, Some(x));
    SwapThenDrop(w.handles, h, a.handles[Temp]);
  }

  /** If h alone held x, assigning x to h again destroys x under it. */
  lemma SamePointerDestroys(w: World, h: Handle, x: nat)
    requires Inv(w) && h in w.handles && Temp !in w.handles && w.handles[h].counted == Some(x)
    requires forall k | k in w.handles && k != h :: w.handles[k].counted != Some(x)
    ensures var v := AssignedRaw(w, h, Some(x)); v.handles[h].counted == Some(x) && x in v.destroyed
  {
    CellLive(w, h);
    var c := w.handles[h].refs.value;
    NextCellFree(w);
    assert Sharing(w.handles, c) == {h} by {
      forall k | k in w.handles && k != h
        ensures w.handles[k].refs != Some(c)
      {
        assert Agree(w.handles[k], w.handles[h]);
      }
    }
    assert w.counts[c] == 1;
    RawResult(w, h, x);
  }

  lemma NextCellFree(w: World)
    requires Inv(w)
    ensures w.nextCell !in w.counts
  {
    assert !(w.nextCell < w.nextCell);
  }

  /** If another handle held x, two counts now claim the same object. */
  lemma SecondCellConflicts(w: World, h: Handle, k: Handle, x: nat)
    requires Inv(w) && h in w.handles && Temp !in w.handles
    requires k in w.handles && k != h && w.handles[k].counted == Some(x)
    ensures !OneCellPerObject(AssignedRaw(w, h, Some(x)).handles)
  {
    RawResult(w, h, x);
    NextCellFree(w);
    var v := AssignedRaw(w, h, Some(x));
    assert v.handles[k] == w.handles[k] && w.handles[k].refs.value in w.counts;
    assert !Agree(v.handles[k], v.handles[h]);
  }

  lemma DanglingBreaksInv(v: World, h: Handle, x: nat)
    requires h in v.handles && v.handles[h].counted == Some(x) && x in v.destroyed
    ensures !Inv(v)
  {
    assert x in Held(v.handles) && x in Elements(v.destroyed);
  }

  /** The promised no-op on the managed pointer happens exactly for the null handle. */
  lemma SamePointerNoOpIff(w: World, h: Handle)
    requires Inv(w) && h in w.handles && Temp !in w.handles
    ensures AssignedRaw(w, h, w.handles[h].counted) == w <==> w.handles[h].counted == None
  {
    var s := w.handles[h];
    if s.counted.None? {
      var a := FromRaw(w, Temp, None);
      assert s == Slot(None, None);
      assert Swapped(a, Temp, h).handles - {Temp} == w.handles by { SwapThenDrop(w.handles, h, s); }
    } else {
      NextCellFree(w);
      RawResult(w, h, s.counted.value);
    }
  }

  /** The handles go out of scope one after the other. */
  ghost function DropAll(w: World, ks: seq<Handle>): Option<World>
    decreases |ks|
  {
    if ks == [] then Some(w)
    else if ks[0] in w.handles && CountLive(w, ks[0]) then DropAll(Destroyed(w, ks[0]), ks[1..])
    else None
  }

  /** The handles ks, and no others, share count c of object x, and it is exact. */
  ghost predicate ShareExactly(w: World, c: nat, x: nat, ks: seq<Handle>) {
    && (forall k | k in ks :: k in w.handles && w.handles[k] == Slot(Some(x), Some(c)))
    && (forall k | k in w.handles && w.handles[k].refs == Some(c) :: k in ks)
    && NoDuplicates(ks)
    && c in w.counts && w.counts[c] == |ks|
  }

  lemma DropOneSharer(w: World, c: nat, x: nat, ks: seq<Handle>)
    requires |ks| > 1 && ShareExactly(w, c, x, ks)
    ensures CountLive(w, ks[0]) && ShareExactly(Destroyed(w, ks[0]), c, x, ks[1..])
  {
    var v := Destroyed(w, ks[0]);
    forall k | k in ks[1..]
      ensures k in v.handles && v.handles[k] == Slot(Some(x), Some(c))
    {
      assert k in ks && k != ks[0];
    }
  }

  lemma {:induction false} DropSharers(w: World, h: Handle, c: nat, x: nat, ks: seq<Handle>)
    requires ks != [] && h !in ks && h in w.handles && ShareExactly(w, c, x, ks)
    ensures DropAll(w, ks).Some?
    ensures var v := DropAll(w, ks).value; h in v.handles && v.handles[h] == w.handles[h] && x in v.destroyed
    decreases |ks|
  {
    if |ks| > 1 {
      DropOneSharer(w, c, x, ks);
      DropSharers(Destroyed(w, ks[0]), h, c, x, ks[1..]);
    } else {
      var v := Destroyed(w, ks[0]);
      assert ks[1..] == [] && x == v.destroyed[|w.destroyed|];
      assert DropAll(v, []) == Some(v);
    }
  }

  /** Once the other handles to x are gone, in any order, x is destroyed and h still refers to it. */
  lemma SamePointerDangles(w: World, h: Handle, x: nat, ks: seq<Handle>)
    requires Inv(w) && h in w.handles && Temp !in w.handles && w.handles[h].counted == Some(x)
    requires NoDuplicates(ks)
    requires forall k :: k in ks <==> k in w.handles && k != h && w.handles[k].counted == Some(x)
    ensures DropAll(AssignedRaw(w, h, Some(x)), ks).Some?
    ensures var v := DropAll(AssignedRaw(w, h, Some(x)), ks).value;
            h in v.handles && v.handles[h].counted == Some(x) && x in v.destroyed
  {
    RawResult(w, h, x);
    if ks == [] {
      SamePointerDestroys(w, h, x);
    } else {
      OthersStillShare(w, h, x, ks);
      DropSharers(AssignedRaw(w, h, Some(x)), h, w.handles[h].refs.value, x, ks);
    }
  }

  lemma OthersStillShare(w: World, h: Handle, x: nat, ks: seq<Handle>)
    requires Inv(w) && h in w.handles && Temp !in w.handles && w.handles[h].counted == Some(x)
    requires ks != [] && NoDuplicates(ks)
    requires forall k :: k in ks <==> k in w.handles && k != h && w.handles[k].counted == Some(x)
    ensures ShareExactly(AssignedRaw(w, h, Some(x)), w.handles[h].refs.value, x, ks)
  {
    RawResult(w, h, x);
    NextCellFree(w);
    CellLive(w, h);
    var c := w.handles[h].refs.value;
    forall k | k in w.handles
      ensures w.handles[k].counted == Some(x) <==> w.handles[k].refs == Some(c)
    {
      assert Agree(w.handles[k], w.handles[h]);
    }
    assert w.counts[c] == |ks| + 1 by { SharersCount(w.handles, h, c, ks); }
  }

  lemma SharersCount(handles: map<Handle, Slot>, h: Handle, c: nat, ks: seq<Handle>)
    requires h in handles && handles[h].refs == Some(c) && NoDuplicates(ks)
    requires forall k :: k in ks <==> k in handles && k != h && handles[k].refs == Some(c)
    ensures |Sharing(handles, c)| == |ks| + 1
  {
    ElementsSize(ks);
    assert Sharing(handles, c) == Elements(ks) + {h};
  }

  /** Assigning a raw pointer keeps the handles sound exactly when it was never handed in before. */
  lemma AssignRawSoundIff(w: World, h: Handle, c: Option<nat>)
    requires Inv(w) && h in w.handles && Temp !in w.handles
    ensures Inv(AssignedRaw(w, h, c)) <==> (c.Some? ==> c.value !in w.adopted)
  {
    if c.None? || c.value !in w.adopted {
      AssignRawKeepsInv(w, h, c);
    } else {
      AdoptedAgainUnsound(w, h, c.value);
    }
  }

  lemma AdoptedAgainUnsound(w: World, h: Handle, x: nat)
    requires Inv(w) && h in w.handles && Temp !in w.handles && x in w.adopted
    ensures !Inv(AssignedRaw(w, h, Some(x)))
  {
    RawResult(w, h, x);
    var v := AssignedRaw(w, h, Some(x));
    if k :| k in w.handles && k != h && w.handles[k].counted == Some(x) {
      SecondCellConflicts(w, h, k, x);
    } else if w.handles[h].counted == Some(x) {
      SamePointerDestroys(w, h, x);
      DanglingBreaksInv(v, h, x);
    } else {
      NotHeld(w.handles, x);
      assert x in Elements(w.destroyed);
      DanglingBreaksInv(v, h, x);
    }
  }

  lemma NotHeld(handles: map<Handle, Slot>, x: nat)
    requires forall k | k in handles :: handles[k].counted != Some(x)
    ensures x !in Held(handles)
  {
  }

  // ---- Whole runs ----

  datatype Op =
    | New(h: Handle)
    | Adopt(h: Handle, raw: Option<nat>)
    | Copy(h: Handle, from: Handle)
    | Swap(h: Handle, k: Handle)
    | Assign(h: Handle, from: Handle)
    | AssignPointer(h: Handle, raw: Option<nat>)
    | Drop(h: Handle)

  /** What a program must respect: variables exist when used, and a raw pointer is handed in once. */
  ghost predicate Enabled(w: World, op: Op) {
    && op.h.Named?
    && match op
       case New(h) => h !in w.handles
       case Adopt(h, raw) => h !in w.handles && (raw.Some? ==> raw.value !in w.adopted)
       case Copy(h, from) => h !in w.handles && from in w.handles
       case Swap(h, k) => h in w.handles && k in w.handles
       case Assign(h, from) => h in w.handles && from in w.handles
       case AssignPointer(h, raw) => h in w.handles && (raw.Some? ==> raw.value !in w.adopted)
       case Drop(h) => h in w.handles
  }

  ghost predicate Ready(w: World) {
    Inv(w) && Temp !in w.handles
  }

  ghost function Step(w: World, op: Op): World
    requires Ready(w) && Enabled(w, op)
  {
    match op
    case New(h) => Default(w, h)
    case Adopt(h, raw) => FromRaw(w, h, raw)
    case Copy(h, from) => CellLive(w, from); CopyOf(w, h, from)
    case Swap(h, k) => Swapped(w, h, k)
    case Assign(h, from) => Assigned(w, h, from)
    case AssignPointer(h, raw) => AssignedRaw(w, h, raw)
    case Drop(h) => CellLive(w, h); Destroyed(w, h)
  }

  /** The same operation when objects are simply traced: no counts, no destruction. */
  ghost function Traced(m: map<Handle, Option<nat>>, op: Op): map<Handle, Option<nat>> {
    match op
    case New(h) => m[h := None]
    case Adopt(h, raw) => m[h := raw]
    case Copy(h, from) => if from in m then m[h := m[from]] else m
    case Swap(h, k) => if h in m && k in m then m[h := m[k]][k := m[h]] else m
    case Assign(h, from) => if from in m then m[h := m[from]] else m
    case AssignPointer(h, raw) => m[h := raw]
    case Drop(h) => m - {h}
  }

  lemma StepKeepsInv(w: World, op: Op)
    requires Ready(w) && Enabled(w, op)
    ensures Inv(Step(w, op))
  {
    match op
    case New(h) => DefaultKeepsInv(w, h);
    case Adopt(h, raw) => FromRawKeepsInv(w, h, raw);
    case Copy(h, from) => CopyKeepsInv(w, h, from);
    case Swap(h, k) => SwapKeepsInv(w, h, k);
    case Assign(h, from) => AssignKeepsInv(w, h, from);
    case AssignPointer(h, raw) => AssignRawKeepsInv(w, h, raw);
    case Drop(h) => DestroyKeepsInv(w, h);
  }

  lemma StepRefs(w: World, op: Op)
    requires Ready(w) && Enabled(w, op)
    ensures Refs(Step(w, op)) == Traced(Refs(w), op)
  {
    match op
    case New(h) => assert Refs(Default(w, h)) == Refs(w)[h := None];
    case Adopt(h, raw) => FromRawRefs(w, h, raw);
    case Copy(h, from) => CellLive(w, from); CopyRefs(w, h, from);
    case Swap(h, k) => SwapRefs(w, h, k);
    case Assign(h, from) => AssignRefs(w, h, from);
    case AssignPointer(h, raw) => AssignRawRefs(w, h, raw);
    case Drop(h) => CellLive(w, h); DestroyRefs(w, h);
  }

  lemma StepReady(w: World, op: Op)
    requires Ready(w) && Enabled(w, op)
    ensures Ready(Step(w, op))
  {
    StepKeepsInv(w, op);
    StepRefs(w, op);
    assert Temp !in Traced(Refs(w), op);
    assert forall h :: h in Refs(Step(w, op)) <==> h in Step(w, op).handles;
  }

  /** The world after a legal run, or nothing. */
  ghost function Run(w: World, ops: seq<Op>): Option<World>
    requires Ready(w)
    decreases |ops|
  {
    if ops == [] then Some(w)
    else if !Enabled(w, ops[0]) then None
    else (StepReady(w, ops[0]); Run(Step(w, ops[0]), ops[1..]))
  }

  ghost function TracedAll(m: map<Handle, Option<nat>>, ops: seq<Op>): map<Handle, Option<nat>>
    decreases |ops|
  {
    if ops == [] then m else TracedAll(Traced(m, ops[0]), ops[1..])
  }

  /** Counting refines tracing over every legal run, and the invariant holds at its end. */
  lemma {:induction false} RunSound(w: World, ops: seq<Op>)
    requires Ready(w) && Run(w, ops).Some?
    ensures Ready(Run(w, ops).value)
    ensures Refs(Run(w, ops).value) == TracedAll(Refs(w), ops)
    decreases |ops|
  {
    if ops != [] {
      StepReady(w, ops[0]);
      StepRefs(w, ops[0]);
      RunSound(Step(w, ops[0]), ops[1..]);
    }
  }

  /** Once no handle is left, every object and every count has been released exactly once. */
  lemma AllReleased(w: World)
    requires Ready(w) && w.handles == map[]
    ensures w.counts == map[]
    ensures Elements(w.destroyed) == w.adopted && NoDuplicates(w.destroyed)
    ensures (forall c: nat | c < w.nextCell :: c in w.freed) && NoDuplicates(w.freed)
  {
    assert Held(w.handles) == {};
    assert forall c :: Sharing(w.handles, c) == {};
    assert forall c :: c !in w.counts;
  }

  /** From nothing, any legal run that ends with no handle has released everything exactly once. */
  lemma CompleteRunReleasesAll(ops: seq<Op>)
    requires Run(EMPTY, ops).Some? && TracedAll(map[], ops) == map[]
    ensures var v := Run(EMPTY, ops).value;
            && v.counts == map[]
            && Elements(v.destroyed) == v.adopted && NoDuplicates(v.destroyed)
            && (forall c: nat | c < v.nextCell :: c in v.freed) && NoDuplicates(v.freed)
  {
    RunSound(EMPTY, ops);
    var v := Run(EMPTY, ops).value;
    assert Refs(EMPTY) == map[];
    assert v.handles == map[] by {
      assert forall h :: h in v.handles <==> h in Refs(v);
    }
    AllReleased(v);
  }

  // ---- The class, updating the heap in place ----

  class Store {
    var handles: map<Handle, Slot>
    var counts: map<nat, nat>
    var nextCell: nat
    var adopted: set<nat>
    var destroyed: seq<nat>
    var freed: seq<nat>

    ghost function View(): World
      reads this
    {
      World(handles, counts, nextCell, adopted, destroyed, freed)
    }

    constructor ()
      ensures View() == EMPTY
    {
      handles, counts, nextCell := map[], map[], 0;
      adopted, destroyed, freed := {}, [], [];
    }

    /** RefCountedPointer(T* c) */
    method ConstructRaw(h: Handle, c: Option<nat>)
      modifies this
      ensures View() == FromRaw(old(View()), h, c)
    {
      handles := handles[h := Slot(c, None)];
      if c.Some? {
        counts := counts[nextCell := 1];
        handles := handles[h := Slot(c, Some(nextCell))];
        nextCell := nextCell + 1;
        adopted := adopted + {c.value};
      }
    }

    /** RefCountedPointer(const ThisType& other) */
    method ConstructCopy(h: Handle, other: Handle)
      requires other in handles && CountLive(View(), other)
      modifies this
      ensures View() == CopyOf(old(View()), h, other)
    {
      var o := handles[other];
      handles := handles[h := Slot(o.counted, if o.counted.Some? then o.refs else None)];
      if handles[h].counted.Some? && handles[h].refs.Some? {
        var r := handles[h].refs.value;
        counts := counts[r := counts[r] + 1];
      }
    }

    /** ~RefCountedPointer() */
    method Destruct(h: Handle)
      requires h in handles && CountLive(View(), h)
      modifies this
      ensures View() == Destroyed(old(View()), h)
    {
      var slot := handles[h];
      if slot.refs.Some? {
        var r := slot.refs.value;
        counts := counts[r := counts[r] - 1];
        if counts[r] == 0 {
          if slot.counted.Some? {
            destroyed := destroyed + [slot.counted.value];
          }
          counts := counts - {r};
          freed := freed + [r];
        }
      }
      handles := handles - {h};
    }

    method SwapWith(h: Handle, k: Handle)
      requires h in handles && k in handles
      modifies this`handles
      ensures View() == Swapped(old(View()), h, k)
    {
      var s := handles[h];
      handles := handles[h := handles[k]];
      handles := handles[k := s];
    }

    /** assign(const ThisType& other) */
    method AssignHandle(h: Handle, other: Handle)
      requires Ready(View()) && h in handles && other in handles
      modifies this
      ensures View() == Assigned(old(View()), h, other) && Ready(View())
      ensures h == other ==> View() == old(View())
    {
      ghost var w := View();
      AssignKeepsInv(w, h, other);
      CopyKeepsInv(w, Temp, other);
      ConstructCopy(Temp, other);
      SwapKeepsInv(View(), Temp, h);
      SwapWith(Temp, h);
      CellLive(View(), Temp);
      Destruct(Temp);
      if h == other {
        SelfAssign(w, h);
      }
    }

    /** assign(T* c) */
    method AssignRaw(h: Handle, c: Option<nat>)
      requires Ready(View()) && h in handles
      modifies this
      ensures View() == AssignedRaw(old(View()), h, c)
      ensures Inv(View()) <==> (c.Some? ==> c.value !in old(adopted))
    {
      AssignRawSoundIff(View(), h, c);
      CellLive(View(), h);
      ConstructRaw(Temp, c);
      SwapWith(Temp, h);
      Destruct(Temp);
    }
  }
}
