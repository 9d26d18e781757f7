/**
 * Releasing a version under reference counting.  Cells stand for tree nodes,
 * counts for the use counts of their shared pointers; a version root is a
 * pointer held outside the cells.
 */
module RefCount {

  datatype Ref = Null | To(id: nat)

  datatype Cell = Free | Leaf | Inte(l: Ref, r: Ref)

  // ----- who holds a cell -----

  function Hold(x: Ref, id: nat): nat { if x == To(id) then 1 else 0 }

  function SonHold(c: Cell, id: nat): nat {
    if c.Inte? then Hold(c.l, id) + Hold(c.r, id) else 0
  }

  function Holds(held: seq<Ref>, id: nat): nat {
    if |held| == 0 then 0 else Holds(held[..|held| - 1], id) + Hold(held[|held| - 1], id)
  }

  function SonHolds(cells: seq<Cell>, id: nat): nat {
    if |cells| == 0 then 0 else SonHolds(cells[..|cells| - 1], id) + SonHold(cells[|cells| - 1], id)
  }

  lemma {:induction false} HoldsUpdate(held: seq<Ref>, k: nat, x: Ref, id: nat)
    requires k < |held|
    ensures Holds(held[k := x], id) + Hold(held[k], id) == Holds(held, id) + Hold(x, id)
  {
    var n := |held| - 1;
    if k < n {
      HoldsUpdate(held[..n], k, x, id);
      assert held[k := x][..n] == held[..n][k := x];
    } else {
      assert held[k := x][..n] == held[..n];
    }
  }

  lemma {:induction false} SonHoldsUpdate(cells: seq<Cell>, k: nat, c: Cell, id: nat)
    requires k < |cells|
    ensures SonHolds(cells[k := c], id) + SonHold(cells[k], id) == SonHolds(cells, id) + SonHold(c, id)
  {
    var n := |cells| - 1;
    if k < n {
      SonHoldsUpdate(cells[..n], k, c, id);
      assert cells[k := c][..n] == cells[..n][k := c];
    } else {
      assert cells[k := c][..n] == cells[..n];
    }
  }

  lemma HoldsPush(held: seq<Ref>, x: Ref, id: nat)
    ensures Holds(held + [x], id) == Holds(held, id) + Hold(x, id)
  {
    assert (held + [x])[..|held|] == held;
  }

  // ----- exact counts -----

  /** Sons are cells of lower rank, so no chain of sons comes back. */
  ghost predicate Ranked(cells: seq<Cell>, rank: seq<nat>) {
    && |cells| == |rank|
    && forall i :: 0 <= i < |cells| && cells[i].Inte? ==>
         RankedSon(cells[i].l, rank, rank[i]) && RankedSon(cells[i].r, rank, rank[i])
  }

  ghost predicate RankedSon(x: Ref, rank: seq<nat>, above: nat) {
    x.To? ==> x.id < |rank| && rank[x.id] < above
  }

  ghost predicate InHeap(held: seq<Ref>, n: nat) {
    forall k :: 0 <= k < |held| && held[k].To? ==> held[k].id < n
  }

  /** Every use count is the number of pointers to the cell, and a cell lives while it is used. */
  ghost predicate Counted(held: seq<Ref>, cells: seq<Cell>, counts: seq<nat>, rank: seq<nat>) {
    && Ranked(cells, rank) && |counts| == |cells| && InHeap(held, |cells|)
    && forall i: nat :: i < |cells| ==> CountIs(held, cells, counts, i)
  }

  ghost predicate CountIs(held: seq<Ref>, cells: seq<Cell>, counts: seq<nat>, i: nat)
    requires i < |cells| == |counts|
  {
    && counts[i] == Holds(held, i) + SonHolds(cells, i)
    && (cells[i].Free? <==> counts[i] == 0)
  }

  /** Cells are only ever freed. */
  ghost predicate Pruned(before: seq<Cell>, after: seq<Cell>) {
    |before| == |after| && forall i :: 0 <= i < |before| ==> after[i] == before[i] || after[i] == Free
  }

  /** The heap when nothing but `held` is used any more. */
  ghost predicate Swept(held: seq<Ref>, before: seq<Cell>, cells: seq<Cell>, counts: seq<nat>, rank: seq<nat>) {
    Counted(held, cells, counts, rank) && Pruned(before, cells)
  }

  // ----- only one heap is swept -----

  lemma {:induction false} HolderExists(held: seq<Ref>, id: nat) returns (k: nat)
    requires Holds(held, id) > 0
    ensures k < |held| && held[k] == To(id)
  {
    k := |held| - 1;
    if held[k] != To(id) {
      k := HolderExists(held[..k], id);
    }
  }

  lemma {:induction false} FatherExists(cells: seq<Cell>, id: nat) returns (k: nat)
    requires SonHolds(cells, id) > 0
    ensures k < |cells| && SonHold(cells[k], id) > 0
  {
    k := |cells| - 1;
    if SonHold(cells[k], id) == 0 {
      k := FatherExists(cells[..k], id);
    }
  }

  lemma {:induction false} FatherHolds(cells: seq<Cell>, k: nat, id: nat)
    requires k < |cells| && SonHold(cells[k], id) > 0
    ensures SonHolds(cells, id) > 0
  {
    if k < |cells| - 1 {
      FatherHolds(cells[..|cells| - 1], k, id);
    }
  }

  lemma {:induction false} HolderHolds(held: seq<Ref>, k: nat, id: nat)
    requires k < |held| && held[k] == To(id)
    ensures Holds(held, id) > 0
  {
    if k < |held| - 1 {
      HolderHolds(held[..|held| - 1], k, id);
    }
  }

  ghost function Top(rank: seq<nat>): (t: nat)
    ensures forall i :: 0 <= i < |rank| ==> rank[i] <= t
  {
    if |rank| == 0 then 0
    else
      var t := Top(rank[..|rank| - 1]);
      if t < rank[|rank| - 1] then rank[|rank| - 1] else t
  }

  /** A cell that lives in one swept heap lives in every other: its user does. */
  lemma {:induction false} LivesToo(held: seq<Ref>, before: seq<Cell>, rank: seq<nat>,
                                    a: seq<Cell>, na: seq<nat>, b: seq<Cell>, nb: seq<nat>, i: nat)
    requires Swept(held, before, a, na, rank) && Swept(held, before, b, nb, rank)
    requires i < |before| && !a[i].Free?
    ensures !b[i].Free?
    decreases Top(rank) - rank[i]
  {
    hide Holds, SonHolds;
    assert CountIs(held, a, na, i) && CountIs(held, b, nb, i);
    if Holds(held, i) == 0 {
      var k := FatherExists(a, i);
      LivesToo(held, before, rank, a, na, b, nb, k);
      FatherHolds(b, k, i);
    }
  }

  lemma SweptUnique(held: seq<Ref>, before: seq<Cell>, rank: seq<nat>,
                    a: seq<Cell>, na: seq<nat>, b: seq<Cell>, nb: seq<nat>)
    requires Swept(held, before, a, na, rank) && Swept(held, before, b, nb, rank)
    ensures a == b && na == nb
  {
    hide Holds, SonHolds;
    forall i: nat | i < |before|
      ensures a[i] == b[i]
    {
      if !a[i].Free? {
        LivesToo(held, before, rank, a, na, b, nb, i);
      }
      if !b[i].Free? {
        LivesToo(held, before, rank, b, nb, a, na, i);
      }
    }
    assert a == b;
    forall i: nat | i < |before|
      ensures na[i] == nb[i]
    {
      assert CountIs(held, a, na, i) && CountIs(held, b, nb, i);
    }
  }

  // ----- what is reached from the held pointers stays, everything else goes -----

  /** The last cell of a chain of sons that starts at a held pointer. */
  ghost predicate Chain(held: seq<Ref>, cells: seq<Cell>, path: seq<nat>) {
    && |path| > 0 && To(path[0]) in held
    && (forall k :: 0 <= k < |path| ==> path[k] < |cells|)
    && forall k :: 0 < k < |path| ==> SonHold(cells[path[k - 1]], path[k]) > 0
  }

  /** A sweep touches no cell that is still reached. */
  lemma {:induction false} ReachedStays(held: seq<Ref>, before: seq<Cell>, cells: seq<Cell>, counts: seq<nat>,
                                        rank: seq<nat>, path: seq<nat>)
    requires Swept(held, before, cells, counts, rank) && Chain(held, before, path)
    ensures cells[path[|path| - 1]] == before[path[|path| - 1]] && !cells[path[|path| - 1]].Free?
    ensures Chain(held, cells, path)
  {
    hide Holds, SonHolds;
    var i := path[|path| - 1];
    assert CountIs(held, cells, counts, i);
    if |path| == 1 {
      var k :| 0 <= k < |held| && held[k] == To(i);
      HolderHolds(held, k, i);
    } else {
      var up := path[..|path| - 1];
      ReachedStays(held, before, cells, counts, rank, up);
      FatherHolds(cells, up[|up| - 1], i);
    }
  }

  /** A sweep leaves no garbage. */
  lemma {:induction false} LiveIsReached(held: seq<Ref>, cells: seq<Cell>, counts: seq<nat>, rank: seq<nat>, i: nat)
    returns (path: seq<nat>)
    requires Counted(held, cells, counts, rank) && i < |cells| && !cells[i].Free?
    ensures Chain(held, cells, path) && path[|path| - 1] == i
    decreases Top(rank) - rank[i]
  {
    hide Holds, SonHolds;
    assert CountIs(held, cells, counts, i);
    if Holds(held, i) > 0 {
      var k := HolderExists(held, i);
      path := [i];
    } else {
      var k := FatherExists(cells, i);
      var up := LiveIsReached(held, cells, counts, rank, k);
      path := up + [i];
    }
  }

  ghost predicate Reached(held: seq<Ref>, cells: seq<Cell>, i: nat) {
    exists path :: Chain(held, cells, path) && path[|path| - 1] == i
  }

  /** After a sweep the live cells are exactly those reached from what is still held, and they are as before. */
  lemma SweptIsReached(held: seq<Ref>, before: seq<Cell>, cells: seq<Cell>, counts: seq<nat>, rank: seq<nat>, i: nat)
    requires Swept(held, before, cells, counts, rank) && i < |cells|
    ensures !cells[i].Free? <==> Reached(held, before, i)
    ensures Reached(held, before, i) ==> cells[i] == before[i]
  {
    hide Counted;
    if !cells[i].Free? {
      var path := LiveIsReached(held, cells, counts, rank, i);
      assert Chain(held, before, path);
    }
    if Reached(held, before, i) {
      var path :| Chain(held, before, path) && path[|path| - 1] == i;
      ReachedStays(held, before, cells, counts, rank, path);
    }
  }

  // ----- pointer variables -----

  /** Where a shared pointer is kept: a version root, or a son field of a node. */
  datatype Slot = Root(k: nat) | LeftOf(p: nat) | RightOf(p: nat)

  predicate IsSlot(slot: Slot, roots: seq<Ref>, cells: seq<Cell>) {
    if slot.Root? then slot.k < |roots| else slot.p < |cells| && cells[slot.p].Inte?
  }

  function Read(slot: Slot, roots: seq<Ref>, cells: seq<Cell>): Ref
    requires IsSlot(slot, roots, cells)
  {
    match slot
    case Root(k) => roots[k]
    case LeftOf(p) => cells[p].l
    case RightOf(p) => cells[p].r
  }

  function StoredRoots(slot: Slot, roots: seq<Ref>, cells: seq<Cell>, x: Ref): seq<Ref>
    requires IsSlot(slot, roots, cells)
  {
    if slot.Root? then roots[slot.k := x] else roots
  }

  function StoredCells(slot: Slot, roots: seq<Ref>, cells: seq<Cell>, x: Ref): seq<Cell>
    requires IsSlot(slot, roots, cells)
  {
    match slot
    case Root(k) => cells
    case LeftOf(p) => cells[p := cells[p].(l := x)]
    case RightOf(p) => cells[p := cells[p].(r := x)]
  }

  function Shared(x: Ref, counts: seq<nat>): seq<nat>
    requires x.To? ==> x.id < |counts|
  {
    if x.To? then counts[x.id := counts[x.id] + 1] else counts
  }

  /** x is alive and may hang in the slot. */
  ghost predicate MayHang(x: Ref, slot: Slot, cells: seq<Cell>, rank: seq<nat>) {
    x.To? ==> x.id < |cells| && !cells[x.id].Free? &&
              (!slot.Root? ==> slot.p < |rank| && RankedSon(x, rank, rank[slot.p]))
  }

  /** One more user of x; the slot's old pointer is held by the one who stores. */
  lemma StoreSlot(slot: Slot, x: Ref, roots: seq<Ref>, cells: seq<Cell>, counts: seq<nat>, rank: seq<nat>)
    requires Counted(roots, cells, counts, rank) && IsSlot(slot, roots, cells) && MayHang(x, slot, cells, rank)
    ensures Counted(StoredRoots(slot, roots, cells, x) + [Read(slot, roots, cells)],
                    StoredCells(slot, roots, cells, x), Shared(x, counts), rank)
  {
    hide Holds, SonHolds, CountIs;
    var y := Read(slot, roots, cells);
    var roots', cells' := StoredRoots(slot, roots, cells, x), StoredCells(slot, roots, cells, x);
    var counts' := Shared(x, counts);
    assert Ranked(cells', rank) && InHeap(roots' + [y], |cells|);
    forall i: nat | i < |cells|
      ensures CountIs(roots' + [y], cells', counts', i)
    {
      StoredCount(slot, x, roots, cells, counts, i);
    }
  }

  lemma StoredCount(slot: Slot, x: Ref, roots: seq<Ref>, cells: seq<Cell>, counts: seq<nat>, i: nat)
    requires IsSlot(slot, roots, cells) && i < |cells| == |counts| && CountIs(roots, cells, counts, i)
    requires x.To? ==> x.id < |cells| && !cells[x.id].Free?
    ensures CountIs(StoredRoots(slot, roots, cells, x) + [Read(slot, roots, cells)],
                    StoredCells(slot, roots, cells, x), Shared(x, counts), i)
  {
    hide Holds, SonHolds;
    HoldsPush(StoredRoots(slot, roots, cells, x), Read(slot, roots, cells), i);
    if slot.Root? {
      HoldsUpdate(roots, slot.k, x, i);
    } else {
      SonHoldsUpdate(cells, slot.p, StoredCells(slot, roots, cells, x)[slot.p], i);
    }
  }

  function ClearedRoots(slot: Slot, roots: seq<Ref>, cells: seq<Cell>): seq<Ref>
    requires IsSlot(slot, roots, cells)
  {
    StoredRoots(slot, roots, cells, Null)
  }

  function ClearedCells(slot: Slot, roots: seq<Ref>, cells: seq<Cell>): seq<Cell>
    requires IsSlot(slot, roots, cells)
  {
    StoredCells(slot, roots, cells, Null)
  }

  /** A cleared slot's pointer is held by the one who cleared it. */
  lemma ClearSlot(slot: Slot, roots: seq<Ref>, cells: seq<Cell>, counts: seq<nat>, rank: seq<nat>)
    requires Counted(roots, cells, counts, rank) && IsSlot(slot, roots, cells)
    ensures Counted(ClearedRoots(slot, roots, cells) + [Read(slot, roots, cells)],
                    ClearedCells(slot, roots, cells), counts, rank)
  {
    StoreSlot(slot, Null, roots, cells, counts, rank);
  }

  lemma {:induction false} NoneBeyond(held: seq<Ref>, n: nat, id: nat)
    requires InHeap(held, n) && n <= id
    ensures Holds(held, id) == 0
  {
    if |held| > 0 {
      NoneBeyond(held[..|held| - 1], n, id);
    }
  }

  ghost predicate SonsBelowSize(cells: seq<Cell>, n: nat) {
    forall i :: 0 <= i < |cells| && cells[i].Inte? ==>
      (cells[i].l.To? ==> cells[i].l.id < n) && (cells[i].r.To? ==> cells[i].r.id < n)
  }

  lemma {:induction false} NoSonsBeyond(cells: seq<Cell>, n: nat, id: nat)
    requires SonsBelowSize(cells, n) && n <= id
    ensures SonHolds(cells, id) == 0
  {
    if |cells| > 0 {
      NoSonsBeyond(cells[..|cells| - 1], n, id);
    }
  }

  /** A new cell without sons, used once. */
  lemma AddCell(k: nat, cell: Cell, h: nat, roots: seq<Ref>, cells: seq<Cell>, counts: seq<nat>, rank: seq<nat>)
    requires Counted(roots, cells, counts, rank) && k < |roots| && roots[k] == Null
    requires cell == Leaf || cell == Inte(Null, Null)
    ensures Counted(roots[k := To(|cells|)], cells + [cell], counts + [1], rank + [h])
  {
    var n := |cells|;
    var roots', cells', counts' := roots[k := To(n)], cells + [cell], counts + [1];
    assert Ranked(cells', rank + [h]);
    assert InHeap(roots', n + 1);
    NoneBeyond(roots, n, n);
    NoSonsBeyond(cells, n, n);
    hide Holds, SonHolds;
    forall i: nat | i < n + 1
      ensures CountIs(roots', cells', counts', i)
    {
      HoldsUpdate(roots, k, To(n), i);
      SonHoldsPush(cells, cell, i);
      if i < n {
        assert CountIs(roots, cells, counts, i);
      }
    }
  }

  lemma SonHoldsPush(cells: seq<Cell>, c: Cell, id: nat)
    ensures SonHolds(cells + [c], id) == SonHolds(cells, id) + SonHold(c, id)
  {
    assert (cells + [c])[..|cells|] == cells;
  }

  /** Dropping a pointer that others share, or that points nowhere. */
  lemma DropShared(x: Ref, held: seq<Ref>, cells: seq<Cell>, counts: seq<nat>, rank: seq<nat>)
    requires Counted(held + [x], cells, counts, rank)
    requires x.To? ==> x.id < |counts| && counts[x.id] > 1
    ensures Counted(held, cells, if x.To? then counts[x.id := counts[x.id] - 1] else counts, rank)
  {
    var counts' := if x.To? then counts[x.id := counts[x.id] - 1] else counts;
    HeldPrefix(held, x, |cells|);
    hide Holds, SonHolds, Ranked, InHeap;
    forall i: nat | i < |cells|
      ensures CountIs(held, cells, counts', i)
    {
      assert CountIs(held + [x], cells, counts, i);
      HoldsPush(held, x, i);
    }
  }

  lemma HeldPrefix(held: seq<Ref>, x: Ref, n: nat)
    requires InHeap(held + [x], n)
    ensures InHeap(held, n) && (x.To? ==> x.id < n)
  {
    assert forall k :: 0 <= k < |held| ==> (held + [x])[k] == held[k];
    assert (held + [x])[|held|] == x;
  }

  /** Dropping the last pointer frees the cell, whose sons are then held by the one who frees it. */
  lemma DropLast(id: nat, held: seq<Ref>, cells: seq<Cell>, counts: seq<nat>, rank: seq<nat>)
    requires Counted(held + [To(id)], cells, counts, rank) && id < |counts| && counts[id] == 1
    ensures var c := cells[id];
            var sons := if c.Inte? then held + [c.l] + [c.r] else held;
            !c.Free? && Counted(sons, cells[id := Free], counts[id := 0], rank)
  {
    var c := cells[id];
    var sons := if c.Inte? then held + [c.l] + [c.r] else held;
    HeldPrefix(held, To(id), |cells|);
    assert CountIs(held + [To(id)], cells, counts, id);
    var cells', counts' := cells[id := Free], counts[id := 0];
    assert InHeap(sons, |cells|) && Ranked(cells', rank);
    hide Holds, SonHolds, Ranked, InHeap, CountIs;
    forall i: nat | i < |cells|
      ensures CountIs(sons, cells', counts', i)
    {
      CountWithout(id, held, cells, counts, i);
    }
  }

  lemma CountWithout(id: nat, held: seq<Ref>, cells: seq<Cell>, counts: seq<nat>, i: nat)
    requires i < |cells| == |counts| && id < |counts| && counts[id] == 1 && !cells[id].Free?
    requires CountIs(held + [To(id)], cells, counts, i)
    ensures var sons := if cells[id].Inte? then held + [cells[id].l] + [cells[id].r] else held;
            CountIs(sons, cells[id := Free], counts[id := 0], i)
  {
    var c := cells[id];
    hide Holds, SonHolds;
    HoldsPush(held, To(id), i);
    SonHoldsUpdate(cells, id, Free, i);
    if c.Inte? {
      HoldsPush(held, c.l, i);
      HoldsPush(held + [c.l], c.r, i);
    }
  }

  /** Above a rank nothing changes. */
  ghost predicate SameAbove(x: Ref, rank: seq<nat>, cells: seq<Cell>, counts: seq<nat>, cells': seq<Cell>,
        counts': seq<nat>) {
    && |rank| == |cells| == |counts| == |cells'| == |counts'|
    && forall i :: 0 <= i < |cells| && (x.To? ==> x.id < |rank| && rank[x.id] < rank[i]) ==>
         cells'[i] == cells[i] && counts'[i] == counts[i]
  }

  /** A pointer is written into one field of one cell; what is released lies below that cell. */
  lemma SlotWritten(slot: Slot, x: Ref, roots: seq<Ref>, cells: seq<Cell>, rank: seq<nat>, counts: seq<nat>,
                    shared: seq<nat>, cells': seq<Cell>, counts': seq<nat>)
    requires IsSlot(slot, roots, cells) && Counted(roots, cells, counts, rank)
    requires SameAbove(Read(slot, roots, cells), rank, StoredCells(slot, roots, cells, x), shared, cells', counts')
    requires Pruned(StoredCells(slot, roots, cells, x), cells')
    ensures |cells'| == |cells|
    ensures StoredRoots(slot, roots, cells, x) == if slot.Root? then roots[slot.k := x] else roots
    ensures slot.LeftOf? ==> cells'[slot.p] == Inte(x, cells[slot.p].r)
    ensures slot.RightOf? ==> cells'[slot.p] == Inte(cells[slot.p].l, x)
    ensures forall i :: 0 <= i < |cells| && (slot.Root? || i != slot.p) ==> cells'[i] == cells[i] || cells'[i] == Free
  {
  }

  class RefHeap {
    var roots: seq<Ref>
    var cells: seq<Cell>
    var counts: seq<nat>
    ghost var rank: seq<nat>

    ghost predicate Valid()
      reads this
    {
      Counted(roots, cells, counts, rank)
    }

    constructor (versions: nat)
      ensures Valid() && roots == seq(versions, _ => Null) && cells == []
    {
      roots, cells, counts, rank := seq(versions, _ => Null), [], [], [];
    }

    /** make_shared: a new node in an empty version root.  The rank is the node's height in its tree. */
    method NewNode(k: nat, cell: Cell, ghost height: nat)
      requires Valid() && k < |roots| && roots[k] == Null && (cell == Leaf || cell == Inte(Null, Null))
      modifies this
      ensures Valid() && roots == old(roots)[k := To(|old(cells)|)]
      ensures cells == old(cells) + [cell] && rank == old(rank) + [height]
    {
      AddCell(k, cell, height, roots, cells, counts, rank);
      roots := roots[k := To(|cells|)];
      cells, counts, rank := cells + [cell], counts + [1], rank + [height];
    }

    /** Assigning a shared pointer: the new target is used once more before the old one is released. */
    method Assign(slot: Slot, x: Ref)
      requires Valid() && IsSlot(slot, roots, cells) && MayHang(x, slot, cells, rank)
      modifies this`roots, this`cells, this`counts
      ensures Valid()
      ensures |cells| == |old(cells)| && roots == if slot.Root? then old(roots)[slot.k := x] else old(roots)
      ensures slot.LeftOf? ==> cells[slot.p] == Inte(x, old(cells)[slot.p].r)
      ensures slot.RightOf? ==> cells[slot.p] == Inte(old(cells)[slot.p].l, x)
      ensures forall i :: 0 <= i < |cells| && (slot.Root? || i != slot.p) ==>
                cells[i] == old(cells)[i] || cells[i] == Free
      ensures Swept(roots, old(StoredCells(slot, roots, cells, x)), cells, counts, rank)
    {
      hide Holds, SonHolds, CountIs, Ranked, InHeap;
      StoreSlot(slot, x, roots, cells, counts, rank);
      var y := Read(slot, roots, cells);
      counts := Shared(x, counts);
      ghost var shared := counts;
      roots, cells := StoredRoots(slot, roots, cells, x), StoredCells(slot, roots, cells, x);
      Release(y, roots);
      SlotWritten(slot, x, old(roots), old(cells), rank, old(counts), shared, cells, counts);
    }

    /**
     * A shared pointer goes away: one use less, and the last use frees the cell and releases its sons, the
     * right first.
     */
    method Release(x: Ref, ghost held: seq<Ref>)
      requires Counted(held + [x], cells, counts, rank)
      modifies this`cells, this`counts
      ensures Swept(held, old(cells), cells, counts, rank)
      ensures SameAbove(x, rank, old(cells), old(counts), cells, counts)
      ensures x.To? && x.id < |old(counts)| && old(counts)[x.id] == 1 ==> x.id < |cells| && cells[x.id] == Free
      decreases if x.To? && x.id < |rank| then rank[x.id] + 1 else 0
    {
      hide Holds, SonHolds, CountIs, Ranked, InHeap;
      HeldInHeap(held, x, cells, counts, rank);
      if x.Null? || counts[x.id] > 1 {
        DropShared(x, held, cells, counts, rank);
        if x.To? {
          counts := counts[x.id := counts[x.id] - 1];
        }
      } else {
        var cell := cells[x.id];
        DropLast(x.id, held, cells, counts, rank);
        SonsBelow(cells, rank, x.id);
        counts := counts[x.id := 0];
        cells := cells[x.id := Free];
        if cell.Inte? {
          Release(cell.r, held + [cell.l]);
          Release(cell.l, held);
        }
      }
    }

    /** reset(): the slot is cleared, then its pointer released. */
    method Reset(slot: Slot)
      requires Valid() && IsSlot(slot, roots, cells)
      modifies this`roots, this`cells, this`counts
      ensures roots == old(ClearedRoots(slot, roots, cells))
      ensures |cells| == |old(cells)| && roots == if slot.Root? then old(roots)[slot.k := Null] else old(roots)
      ensures slot.LeftOf? ==> cells[slot.p] == Inte(Null, old(cells)[slot.p].r)
      ensures slot.RightOf? ==> cells[slot.p] == Inte(old(cells)[slot.p].l, Null)
      ensures forall i :: 0 <= i < |cells| && (slot.Root? || i != slot.p) ==>
                cells[i] == old(cells)[i] || cells[i] == Free
      ensures Swept(roots, old(ClearedCells(slot, roots, cells)), cells, counts, rank)
      ensures SameAbove(old(Read(slot, roots, cells)), rank, old(ClearedCells(slot, roots, cells)), old(counts),
               cells, counts)
      ensures var x := old(Read(slot, roots, cells));
              x.To? && x.id < |old(counts)| && old(counts)[x.id] == 1 ==> x.id < |cells| && cells[x.id] == Free
    {
      hide Holds, SonHolds, CountIs, Ranked, InHeap, Counted;
      ClearSlot(slot, roots, cells, counts, rank);
      var x := Read(slot, roots, cells);
      roots, cells := ClearedRoots(slot, roots, cells), ClearedCells(slot, roots, cells);
      Release(x, roots);
      SlotWritten(slot, Null, old(roots), old(cells), rank, old(counts), old(counts), cells, counts);
    }

    /** gc_nocheck: takes a version apart from the top as long as nothing else uses the node. */
    method GcNocheck(slot: Slot)
      requires Valid() && IsSlot(slot, roots, cells)
      modifies this`roots, this`cells, this`counts
      ensures roots == old(ClearedRoots(slot, roots, cells))
      ensures Swept(roots, old(ClearedCells(slot, roots, cells)), cells, counts, rank)
      ensures SameAbove(old(Read(slot, roots, cells)), rank, old(ClearedCells(slot, roots, cells)), old(counts),
               cells, counts)
      decreases var x := Read(slot, roots, cells); if x.To? && x.id < |rank| then rank[x.id] + 1 else 0
    {
      hide Holds, SonHolds, CountIs, Ranked, InHeap, Counted, Pruned, SameAbove;
      var x := Read(slot, roots, cells);
      SlotInHeap(slot, roots, cells, counts, rank);
      if x.Null? {
        ClearingNull(slot, roots, cells, counts, rank);
        return;
      }
      if cells[x.id].Leaf? {
        Reset(slot);
        return;
      }
      if counts[x.id] == 1 {
        GcNocheck(LeftOf(x.id));
        SonGone(slot, roots, x.id, old(cells[x.id].l), rank, old(ClearedCells(LeftOf(x.id), roots, cells)), old(counts),
                cells, counts);
        label right:
        GcNocheck(RightOf(x.id));
        SonGone(slot, roots, x.id, old@right(cells[x.id].r), rank, old@right(ClearedCells(RightOf(x.id), roots, cells)),
                old@right(counts), cells, counts);
        label empty:
        Reset(slot);
        NodeGone(slot, old(roots), x.id, rank, old(cells), old(counts), old@right(cells), old@right(counts),
                 old@empty(cells), old@empty(counts), cells, counts);
      } else {
        Reset(slot);
      }
    }

    /** Dropping version k: what the other versions reach stays as it is, and every other cell is free. */
    method DropVersion(k: nat)
      requires Valid() && k < |roots|
      modifies this`roots, this`cells, this`counts
      ensures Valid() && roots == old(roots)[k := Null] && |cells| == |old(cells)|
      ensures forall i: nat :: i < |cells| ==> (!cells[i].Free? <==> Reached(roots, old(cells), i))
      ensures forall i: nat :: i < |cells| && Reached(roots, old(cells), i) ==> cells[i] == old(cells)[i]
    {
      GcNocheck(Root(k));
      hide Counted, Reached;
      forall i: nat | i < |cells|
        ensures !cells[i].Free? <==> Reached(roots, old(cells), i)
        ensures Reached(roots, old(cells), i) ==> cells[i] == old(cells)[i]
      {
        SweptIsReached(roots, old(cells), cells, counts, rank, i);
      }
    }
  }

  /** Sweeping below a node leaves the node, and the slot it hangs in. */
  lemma SonGone(slot: Slot, roots: seq<Ref>, id: nat, son: Ref, rank: seq<nat>,
                cells: seq<Cell>, counts: seq<nat>, cells': seq<Cell>, counts': seq<nat>)
    requires SameAbove(son, rank, cells, counts, cells', counts') && id < |cells| && RankedSon(son, rank, rank[id])
    requires IsSlot(slot, roots, cells) && (!slot.Root? ==> rank[id] < rank[slot.p])
    ensures |cells'| == |counts'| == |counts| == |cells| && cells'[id] == cells[id] && counts'[id] == counts[id]
    ensures SameAbove(To(id), rank, cells, counts, cells', counts')
    ensures IsSlot(slot, roots, cells') && Read(slot, roots, cells') == Read(slot, roots, cells)
  {
  }

  /** Emptied from below and then freed, a node is gone as if freed at once. */
  lemma NodeGone(slot: Slot, roots: seq<Ref>, id: nat, rank: seq<nat>,
                 cells: seq<Cell>, counts: seq<nat>, cells1: seq<Cell>, counts1: seq<nat>,
                 cells2: seq<Cell>, counts2: seq<nat>, cells3: seq<Cell>, counts3: seq<nat>)
    requires IsSlot(slot, roots, cells) && id < |cells| && cells[id].Inte?
    requires !slot.Root? ==> slot.p < |rank| && id < |rank| && rank[id] < rank[slot.p]
    requires Pruned(ClearedCells(LeftOf(id), roots, cells), cells1) && id < |cells1| && cells1[id].Inte?
    requires SameAbove(To(id), rank, ClearedCells(LeftOf(id), roots, cells), counts, cells1, counts1)
    requires Pruned(ClearedCells(RightOf(id), roots, cells1), cells2)
    requires SameAbove(To(id), rank, ClearedCells(RightOf(id), roots, cells1), counts1, cells2, counts2)
    requires IsSlot(slot, roots, cells2) && Pruned(ClearedCells(slot, roots, cells2), cells3)
    requires SameAbove(To(id), rank, ClearedCells(slot, roots, cells2), counts2, cells3, counts3)
    requires id < |cells3| && cells3[id] == Free
    ensures Pruned(ClearedCells(slot, roots, cells), cells3)
    ensures SameAbove(To(id), rank, ClearedCells(slot, roots, cells), counts, cells3, counts3)
  {
  }

  lemma HeldInHeap(held: seq<Ref>, x: Ref, cells: seq<Cell>, counts: seq<nat>, rank: seq<nat>)
    requires Counted(held + [x], cells, counts, rank)
    ensures x.To? ==> x.id < |cells| && counts[x.id] > 0 && !cells[x.id].Free?
    ensures |rank| == |cells| == |counts|
  {
    HeldPrefix(held, x, |cells|);
    if x.To? {
      assert CountIs(held + [x], cells, counts, x.id);
      HoldsPush(held, x, x.id);
    }
  }

  lemma SonsBelow(cells: seq<Cell>, rank: seq<nat>, id: nat)
    requires Ranked(cells, rank) && id < |cells|
    ensures cells[id].Inte? ==> RankedSon(cells[id].l, rank, rank[id]) && RankedSon(cells[id].r, rank, rank[id])
  {
  }

  /** The cell a slot points to is alive, and ranked below the slot's node. */
  lemma SlotInHeap(slot: Slot, roots: seq<Ref>, cells: seq<Cell>, counts: seq<nat>, rank: seq<nat>)
    requires Counted(roots, cells, counts, rank) && IsSlot(slot, roots, cells)
    ensures |rank| == |cells| == |counts|
    ensures var x := Read(slot, roots, cells);
            x.To? ==>
              && x.id < |cells| && counts[x.id] > 0 && !cells[x.id].Free?
              && (!slot.Root? ==> rank[x.id] < rank[slot.p])
              && (cells[x.id].Inte? ==>
                    RankedSon(cells[x.id].l, rank, rank[x.id]) && RankedSon(cells[x.id].r, rank, rank[x.id]))
  {
    var x := Read(slot, roots, cells);
    if x.To? {
      assert CountIs(roots, cells, counts, x.id);
      if slot.Root? {
        HolderHolds(roots, slot.k, x.id);
      } else {
        FatherHolds(cells, slot.p, x.id);
      }
    }
  }

  lemma ClearingNull(slot: Slot, roots: seq<Ref>, cells: seq<Cell>, counts: seq<nat>, rank: seq<nat>)
    requires IsSlot(slot, roots, cells) && Read(slot, roots, cells) == Null && |rank| == |counts| == |cells|
    ensures ClearedRoots(slot, roots, cells) == roots && ClearedCells(slot, roots, cells) == cells
    ensures Pruned(cells, cells) && SameAbove(Null, rank, cells, counts, cells, counts)
  {
  }
}
