/** map_spatial_diff: climb to the lowest common ancestor, trace both branches, compare the signs. */
module RlogDiff {
  import opened Points
  import opened Geometry
  import opened Logs
  import opened LogDiffs
  import opened Rlog

  // ----- the climb -----

  /** A node sits in a line where its depth says. */
  lemma {:induction false} PlaceInLine(line: seq<VersionNode>, n: VersionNode) returns (k: nat)
    requires IsLine(line) && n in line
    ensures k < |line| && line[k] == n && n.depth == |line| - 1 - k
  {
    k :| 0 <= k < |line| && line[k] == n;
    LineAt(line, k);
  }

  /** The common ancestors of two lines are all among these two nodes' ancestors. */
  ghost predicate Above(l1: seq<VersionNode>, i: nat, l2: seq<VersionNode>, j: nat)
    requires i <= |l1| && j <= |l2|
  {
    forall c :: c in l1 && c in l2 ==> c in l1[i..] && c in l2[j..]
  }

  /** The node at height i of a line; none past the root. */
  ghost function Up(line: seq<VersionNode>, i: nat): VersionNode?
    requires i <= |line|
  {
    if i < |line| then line[i] else null
  }

  /** A node deeper than the other line's is no common ancestor. */
  lemma ClimbDeeper(l1: seq<VersionNode>, i: nat, l2: seq<VersionNode>, j: nat)
    requires IsLine(l1) && IsLine(l2) && i < |l1| && j < |l2| && Above(l1, i, l2, j)
    requires l2[j].depth < l1[i].depth
    ensures Above(l1, i + 1, l2, j) && Above(l2, j, l1, i + 1)
  {
    hide IsLine;
    LineAt(l1, i);
    LineAt(l2, j);
    forall c | c in l1 && c in l2
      ensures c in l1[i + 1..] && c in l2[j..]
    {
      var k := PlaceInLine(l1, c);
      var m := PlaceBelow(l2, j, c);
      assert i < k;
      assert l1[i + 1..][k - i - 1] == c;
    }
  }

  lemma PlaceBelow(line: seq<VersionNode>, j: nat, c: VersionNode) returns (m: nat)
    requires IsLine(line) && j < |line| && c in line[j..]
    ensures j <= m < |line| && line[m] == c && c.depth == |line| - 1 - m
  {
    var k :| 0 <= k < |line[j..]| && line[j..][k] == c;
    m := j + k;
    LineAt(line, m);
  }

  /** Two different nodes of one depth are no common ancestors. */
  lemma ClimbBoth(l1: seq<VersionNode>, i: nat, l2: seq<VersionNode>, j: nat)
    requires IsLine(l1) && IsLine(l2) && i < |l1| && j < |l2| && Above(l1, i, l2, j)
    requires l2[j].depth == l1[i].depth && l1[i] != l2[j]
    ensures Above(l1, i + 1, l2, j + 1) && |l1| - i == |l2| - j
  {
    hide IsLine;
    LineAt(l1, i);
    LineAt(l2, j);
    forall c | c in l1 && c in l2
      ensures c in l1[i + 1..] && c in l2[j + 1..]
    {
      var k := PlaceBelow(l1, i, c);
      var m := PlaceBelow(l2, j, c);
      assert i < k && j < m;
      assert l1[i + 1..][k - i - 1] == c && l2[j + 1..][m - j - 1] == c;
    }
  }

  lemma ParentAt(line: seq<VersionNode>, k: nat)
    requires IsLine(line) && k < |line|
    ensures line[k].parent == Up(line, k + 1) && line[k].depth == |line| - 1 - k
  {
    LineAt(line, k);
  }

  lemma LineOf(line: seq<VersionNode>, k: nat)
    requires IsLine(line) && k < |line|
    ensures line[k].line == line[k..]
  {
    LineAt(line, k);
  }

  /** The lowest common ancestor, or null for versions of different trees. */
  method CommonAncestor(v1: VersionNode, v2: VersionNode) returns (lca: VersionNode?)
    requires v1.Valid() && v2.Valid()
    ensures lca == null ==> forall c :: c in v1.line ==> c !in v2.line
    ensures lca != null ==>
              lca in v1.line && lca in v2.line && forall c :: c in v1.line && c in v2.line ==> c in lca.line
  {
    ghost var l1, l2 := v1.line, v2.line;
    AboveStart(l1, l2);
    hide IsLine, Above, Up;
    var ptr1, i := ClimbTo(l1, v1, l2, 0, v2);
    AboveTurn(l1, i, l2, 0);
    var ptr2, j := ClimbTo(l2, v2, l1, i, ptr1);
    AboveTurn(l2, j, l1, i);
    ParentAt(l1, i);
    ParentAt(l2, j);
    ParentAt(l1, 0);
    ParentAt(l2, 0);
    lca := ClimbTogether(l1, i, ptr1, l2, j, ptr2);
  }

  /** Climbs from the deeper node until it is no deeper than the other. */
  method ClimbTo(ghost line: seq<VersionNode>, node: VersionNode,
                 ghost others: seq<VersionNode>, ghost j: nat, other: VersionNode)
    returns (ptr: VersionNode, ghost i: nat)
    requires IsLine(line) && line != [] && IsLine(others) && node == line[0] && j < |others| && other == others[j]
    requires Above(line, 0, others, j)
    ensures i < |line| && ptr == line[i] && Above(line, i, others, j)
    ensures ptr.depth == if node.depth <= other.depth then node.depth else other.depth
  {
    hide IsLine, Above, Up;
    ptr, i := node, 0;
    while ptr.depth > other.depth
      invariant i < |line| && ptr == line[i] && Above(line, i, others, j)
      invariant i == 0 ==> ptr == node
      invariant i > 0 ==> ptr.depth >= other.depth && node.depth > other.depth
      decreases |line| - i
    {
      ParentAt(line, i);
      ClimbDeeper(line, i, others, j);
      UpAt(line, i + 1);
      HasParent(line, i, others, j);
      ptr := ptr.parent;
      i := i + 1;
      ParentAt(line, i);
    }
  }

  lemma HasParent(line: seq<VersionNode>, i: nat, others: seq<VersionNode>, j: nat)
    requires IsLine(line) && IsLine(others) && i < |line| && j < |others| && others[j].depth < line[i].depth
    ensures i + 1 < |line|
  {
    ParentAt(line, i);
    ParentAt(others, j);
  }

  method ClimbTogether(ghost l1: seq<VersionNode>, ghost i0: nat, v1: VersionNode,
                       ghost l2: seq<VersionNode>, ghost j0: nat, v2: VersionNode) returns (lca: VersionNode?)
    requires IsLine(l1) && IsLine(l2) && i0 < |l1| && j0 < |l2| && v1 == l1[i0] && v2 == l2[j0]
    requires |l1| - i0 == |l2| - j0 && Above(l1, i0, l2, j0)
    ensures lca == null ==> forall c :: c in l1 ==> c !in l2
    ensures lca != null ==> lca in l1 && lca in l2 && forall c :: c in l1 && c in l2 ==> c in lca.line
  {
    hide IsLine, Above, Up;
    ghost var i: nat, j: nat := i0, j0;
    var ptr1: VersionNode?, ptr2: VersionNode? := v1, v2;
    UpAt(l1, i);
    UpAt(l2, j);
    while ptr1 != null && ptr2 != null && ptr1 != ptr2
      invariant i <= |l1| && j <= |l2| && ptr1 == Up(l1, i) && ptr2 == Up(l2, j) && Above(l1, i, l2, j)
      invariant |l1| - i == |l2| - j
      decreases |l1| - i
    {
      UpAt(l1, i);
      UpAt(l2, j);
      ParentAt(l1, i);
      ParentAt(l2, j);
      ClimbBoth(l1, i, l2, j);
      ptr1 := ptr1.parent;
      ptr2 := ptr2.parent;
      i, j := i + 1, j + 1;
    }
    lca := ptr1;
    UpAt(l1, i);
    UpAt(l2, j);
    AboveEnd(l1, i, l2, j);
    if lca != null {
      LineOf(l1, i);
    }
  }

  lemma UpAt(line: seq<VersionNode>, i: nat)
    requires i <= |line|
    ensures Up(line, i) == null <==> i == |line|
    ensures i < |line| ==> Up(line, i) == line[i]
  {
  }

  lemma AboveStart(l1: seq<VersionNode>, l2: seq<VersionNode>)
    ensures Above(l1, 0, l2, 0)
  {
  }

  lemma AboveTurn(l1: seq<VersionNode>, i: nat, l2: seq<VersionNode>, j: nat)
    requires i <= |l1| && j <= |l2| && Above(l1, i, l2, j)
    ensures Above(l2, j, l1, i)
  {
  }

  lemma AboveEnd(l1: seq<VersionNode>, i: nat, l2: seq<VersionNode>, j: nat)
    requires i <= |l1| && j <= |l2| && Above(l1, i, l2, j)
    ensures forall c :: c in l1 && c in l2 ==> c in l1[i..]
  {
  }

  // ----- versions that may be null -----

  ghost function LineFrom(v: VersionNode?): seq<VersionNode>
    reads v
  {
    if v == null then [] else v.line
  }

  ghost function LogFrom(v: VersionNode?): seq<Entry>
    reads v, LineFrom(v)
  {
    if v == null then [] else v.Log()
  }

  ghost predicate ValidOrNull(v: VersionNode?)
    reads v, LineFrom(v)
  {
    v != null ==> v.Valid()
  }

  // ----- the trace -----

  method TraceRemoves(state: map<nat, int>, values: map<nat, Point>, s: seq<Point>)
    returns (state': map<nat, int>, values': map<nat, Point>)
    ensures state' == AfterRemoves(state, s) && values' == Noted(values, s)
  {
    hide Noted, AfterRemoves;
    NoRemoves(state, values);
    state', values' := state, values;
    for i := 0 to |s|
      invariant state' == AfterRemoves(state, s[..i]) && values' == Noted(values, s[..i])
    {
      var rm := s[i];
      OneRemove(state, s, i);
      if rm.id !in state' {
        state' := state'[rm.id := -1];
      }
      NotedOne(values, s, i);
      values' := values'[rm.id := rm];
    }
    assert s[..|s|] == s;
  }

  lemma OneMore(s: seq<Point>, i: nat)
    requires i < |s|
    ensures Ids(s[..i + 1]) == Ids(s[..i]) + {s[i].id}
  {
    assert s[..i + 1] == s[..i] + [s[i]];
  }

  lemma NoRemoves(state: map<nat, int>, values: map<nat, Point>)
    ensures AfterRemoves(state, []) == state && Noted(values, []) == values
  {
  }

  lemma NoInserts(state: map<nat, int>, values: map<nat, Point>)
    ensures AfterInserts(state, []) == state && Noted(values, []) == values
  {
  }

  lemma OneRemove(state: map<nat, int>, s: seq<Point>, i: nat)
    requires i < |s|
    ensures var before, id := AfterRemoves(state, s[..i]), s[i].id;
            AfterRemoves(state, s[..i + 1]) == if id in before then before else before[id := -1]
  {
    OneMore(s, i);
    hide Ids;
  }

  lemma OneInsert(state: map<nat, int>, s: seq<Point>, i: nat)
    requires i < |s|
    ensures var before, id := AfterInserts(state, s[..i]), s[i].id;
            AfterInserts(state, s[..i + 1]) ==
            if id !in before then before[id := 1] else if before[id] == -1 then before[id := 0] else before
  {
    OneMore(s, i);
    hide Ids;
  }

  lemma NotedOne(values: map<nat, Point>, s: seq<Point>, i: nat)
    requires i < |s|
    ensures Noted(values, s[..i + 1]) == Noted(values, s[..i])[s[i].id := s[i]]
  {
    assert s[..i + 1][..i] == s[..i];
  }

  method TraceInserts(state: map<nat, int>, values: map<nat, Point>, s: seq<Point>)
    returns (state': map<nat, int>, values': map<nat, Point>)
    ensures state' == AfterInserts(state, s) && values' == Noted(values, s)
  {
    hide Noted, AfterInserts;
    NoInserts(state, values);
    state', values' := state, values;
    for i := 0 to |s|
      invariant state' == AfterInserts(state, s[..i]) && values' == Noted(values, s[..i])
    {
      var ins := s[i];
      OneInsert(state, s, i);
      if ins.id !in state' {
        state' := state'[ins.id := 1];
      } else if state'[ins.id] == -1 {
        state' := state'[ins.id := 0];
      }
      NotedOne(values, s, i);
      values' := values'[ins.id := ins];
    }
    assert s[..|s|] == s;
  }

  /** One version's removals, then its insertions. */
  method TraceVersion(curr: VersionNode, ghost line: seq<VersionNode>, ghost i: nat, ghost start: map<nat, Point>,
                      state: map<nat, int>, values: map<nat, Point>)
    returns (state': map<nat, int>, values': map<nat, Point>)
    requires IsLine(line) && i < |line| && curr == line[i]
    requires state == Traced(LogOf(line), i) && values == NotedAlong(start, LogOf(line), i)
    ensures state' == Traced(LogOf(line), i + 1) && values' == NotedAlong(start, LogOf(line), i + 1)
  {
    hide IsLine, LogOf, Traced, NotedAlong, Noted, AfterRemoves, AfterInserts, VersionNode.AsEntry;
    DeltasAt(line, i);
    TraceStep(start, LogOf(line), i);
    state', values' := TraceRemoves(state, values, curr.deltaRemoves);
    state', values' := TraceInserts(state', values', curr.deltaInserts);
  }

  /**
   * From a version up to, but not including, an ancestor k versions above it; to the root and past it if none
   * is given.
   */
  method TraceBranch(leaf: VersionNode?, lca: VersionNode?, ghost k: nat, values: map<nat, Point>)
    returns (state: map<nat, int>, values': map<nat, Point>)
    requires ValidOrNull(leaf) && k <= |LineFrom(leaf)| && (leaf != null ==> lca == Up(leaf.line, k))
    ensures k <= |LogFrom(leaf)| && state == Traced(LogFrom(leaf), k) && values' == NotedAlong(values, LogFrom(leaf), k)
  {
    if leaf == null {
      return map[], values;
    }
    ghost var line, log := leaf.line, leaf.Log();
    hide IsLine, LogOf, Traced, NotedAlong, Noted, AfterRemoves, AfterInserts, Up, VersionNode.AsEntry;
    state, values' := map[], values;
    TraceStart(values, log);
    ghost var i: nat := 0;
    var curr: VersionNode? := leaf;
    UpAt(line, 0);
    UpAt(line, k);
    while curr != null && curr != lca
      invariant i <= k && curr == Up(line, i) && state == Traced(log, i) && values' == NotedAlong(values, log, i)
      decreases k - i
    {
      UpAt(line, i);
      ParentAt(line, i);
      state, values' := TraceVersion(curr, line, i, values, state, values');
      curr := curr.parent;
      i := i + 1;
    }
    UpAt(line, i);
    if i < k {
      PlacesDiffer(line, i, k);
    }
  }

  lemma DeltasAt(line: seq<VersionNode>, k: nat)
    requires IsLine(line) && k < |line|
    ensures LogOf(line)[k].removes == line[k].deltaRemoves && LogOf(line)[k].inserts == line[k].deltaInserts
  {
    EntryAt(line, k);
  }

  lemma PlacesDiffer(line: seq<VersionNode>, i: nat, k: nat)
    requires IsLine(line) && i < k <= |line|
    ensures Up(line, i) != Up(line, k)
  {
    ParentAt(line, i);
    if k < |line| {
      ParentAt(line, k);
    }
  }

  lemma TraceStart(values: map<nat, Point>, log: seq<Entry>)
    ensures Traced(log, 0) == map[] && NotedAlong(values, log, 0) == values
  {
  }

  lemma TraceStep(values: map<nat, Point>, log: seq<Entry>, i: nat)
    requires i < |log|
    ensures Traced(log, i + 1) == AfterInserts(AfterRemoves(Traced(log, i), log[i].removes), log[i].inserts)
    ensures NotedAlong(values, log, i + 1) == Noted(Noted(NotedAlong(values, log, i), log[i].removes), log[i].inserts)
  {
  }

  // ----- the signed states -----

  class LogDiff {
    var add: seq<Point>
    var remove: seq<Point>

    constructor ()
      ensures add == [] && remove == []
    {
      add, remove := [], [];
    }
  }

  /** A list of the noted points in the box whose sign f picks, once each. */
  ghost predicate Lists(s: seq<Point>, notes: map<nat, Point>, q: Box, ids: set<nat>, f: nat -> bool) {
    && (forall a, b :: 0 <= a < b < |s| ==> s[a].id != s[b].id)
    && forall p :: p in s <==> p.id in ids && p.id in notes && notes[p.id] == p && PointInBox(p, q) && f(p.id)
  }

  function Gained(state1: map<nat, int>, state2: map<nat, int>): nat -> bool {
    (id: nat) => ValueAt(state2, id) - ValueAt(state1, id) > 0
  }

  function Lost(state1: map<nat, int>, state2: map<nat, int>): nat -> bool {
    (id: nat) => ValueAt(state2, id) - ValueAt(state1, id) < 0
  }

  lemma ListsMore(s: seq<Point>, notes: map<nat, Point>, q: Box, ids: set<nat>, f: nat -> bool, id: nat)
    requires Lists(s, notes, q, ids, f) && id !in ids && id in notes && notes[id].id == id
    ensures PointInBox(notes[id], q) && f(id) ==> Lists(s + [notes[id]], notes, q, ids + {id}, f)
    ensures !(PointInBox(notes[id], q) && f(id)) ==> Lists(s, notes, q, ids + {id}, f)
  {
  }

  lemma Signs(state1: map<nat, int>, state2: map<nat, int>, id: nat)
    ensures var s1, s2 := ValueAt(state1, id), ValueAt(state2, id);
            Gained(state1, state2)(id) == (s2 - s1 > 0) && Lost(state1, state2)(id) == (s2 - s1 < 0)
  {
  }

  lemma OneDone(todo: set<nat>, done: set<nat>, keys: set<nat>, id: nat)
    requires todo + done == keys && todo !! done && id in todo
    ensures (todo - {id}) + (done + {id}) == keys && (todo - {id}) !! (done + {id}) && id in keys && id !in done
    ensures |todo - {id}| < |todo|
  {
  }

  /** For every noted point in the box, in no particular order. */
  method CompareStates(values: map<nat, Point>, state1: map<nat, int>, state2: map<nat, int>, q: Box)
    returns (add: seq<Point>, remove: seq<Point>)
    requires KeyedById(values)
    ensures Lists(add, values, q, values.Keys, Gained(state1, state2))
    ensures Lists(remove, values, q, values.Keys, Lost(state1, state2))
  {
    add, remove := [], [];
    var todo := values.Keys;
    ghost var done: set<nat> := {};
    hide Lists, Gained, Lost, PointInBox;
    NothingListed(values, q, Gained(state1, state2));
    NothingListed(values, q, Lost(state1, state2));
    while todo != {}
      invariant todo + done == values.Keys && todo !! done
      invariant Lists(add, values, q, done, Gained(state1, state2))
      invariant Lists(remove, values, q, done, Lost(state1, state2))
      decreases |todo|
    {
      var id :| id in todo;
      OneDone(todo, done, values.Keys, id);
      Signs(state1, state2, id);
      ListsMore(add, values, q, done, Gained(state1, state2), id);
      ListsMore(remove, values, q, done, Lost(state1, state2), id);
      if PointInBox(values[id], q) {
        var s1 := if id in state1 then state1[id] else 0;
        var s2 := if id in state2 then state2[id] else 0;
        var netChange := s2 - s1;
        if netChange > 0 {
          add := add + [values[id]];
        } else if netChange < 0 {
          remove := remove + [values[id]];
        }
      }
      todo, done := todo - {id}, done + {id};
    }
    assert done == values.Keys;
  }

  lemma NothingListed(notes: map<nat, Point>, q: Box, f: nat -> bool)
    ensures Lists([], notes, q, {}, f)
  {
  }

  // ----- the diff of two versions -----

  ghost predicate KeyedById(values: map<nat, Point>) { forall id :: id in values ==> values[id].id == id }

  lemma {:induction false} NotedKeyed(values: map<nat, Point>, s: seq<Point>)
    requires KeyedById(values)
    ensures KeyedById(Noted(values, s))
  {
    if s != [] {
      NotedKeyed(values, s[..|s| - 1]);
    }
  }

  lemma {:induction false} NotesKeyed(values: map<nat, Point>, log: seq<Entry>, k: nat)
    requires KeyedById(values) && k <= |log|
    ensures KeyedById(NotedAlong(values, log, k))
  {
    hide KeyedById, Noted;
    if k > 0 {
      NotesKeyed(values, log, k - 1);
      NotedKeyed(NotedAlong(values, log, k - 1), log[k - 1].removes);
      NotedKeyed(Noted(NotedAlong(values, log, k - 1), log[k - 1].removes), log[k - 1].inserts);
    }
  }

  /** Versions whose histories are proper and never use one id for two points. */
  ghost predicate Comparable(a: seq<Entry>, b: seq<Entry>) {
    Proper(a) && Proper(b) && UniqueIds(Ever(a) + Ever(b))
  }

  /** Exactly the points in the box that `after` shows and `before` does not, once each. */
  ghost predicate IsChange(s: seq<Point>, before: seq<Entry>, after: seq<Entry>, q: Box) {
    && (forall a, b :: 0 <= a < b < |s| ==> s[a].id != s[b].id)
    && forall p :: p in s <==> p in Visible(after) && p !in Visible(before) && PointInBox(p, q)
  }

  ghost predicate SameTree(v1: VersionNode?, v2: VersionNode?)
    reads v1, v2
  {
    exists c :: c in LineFrom(v1) && c in LineFrom(v2)
  }

  lemma ListsAreChanges(a: seq<Entry>, i: nat, b: seq<Entry>, j: nat, q: Box, add: seq<Point>, remove: seq<Point>)
    requires Parted(a, i, b, j)
    requires var notes := NotesOf(a, i, b, j);
             && Lists(add, notes, q, notes.Keys, Gained(Traced(a, i), Traced(b, j)))
             && Lists(remove, notes, q, notes.Keys, Lost(Traced(a, i), Traced(b, j)))
    ensures IsChange(add, a, b, q) && IsChange(remove, b, a, q)
  {
    hide Visible, Live, NotesOf, Traced, Proper, Ever, UniqueIds, PointInBox, Gained, Lost, NetBetween, Lists;
    ProperIsExact(a);
    ProperIsExact(b);
    InPointsOf(Visible(a));
    InPointsOf(Visible(b));
    forall p: Point
      ensures p in add <==> p in Visible(b) && p !in Visible(a) && PointInBox(p, q)
      ensures p in remove <==> p in Visible(a) && p !in Visible(b) && PointInBox(p, q)
    {
      SignsAreExact(a, i, b, j, p);
      NetSigns(a, i, b, j, p.id);
      InList(add, NotesOf(a, i, b, j), q, Gained(Traced(a, i), Traced(b, j)), p);
      InList(remove, NotesOf(a, i, b, j), q, Lost(Traced(a, i), Traced(b, j)), p);
    }
    ListedOnce(add, NotesOf(a, i, b, j), q, Gained(Traced(a, i), Traced(b, j)));
    ListedOnce(remove, NotesOf(a, i, b, j), q, Lost(Traced(a, i), Traced(b, j)));
  }

  lemma InList(s: seq<Point>, notes: map<nat, Point>, q: Box, f: nat -> bool, p: Point)
    requires Lists(s, notes, q, notes.Keys, f)
    ensures p in s <==> p.id in notes && notes[p.id] == p && PointInBox(p, q) && f(p.id)
  {
  }

  lemma ListedOnce(s: seq<Point>, notes: map<nat, Point>, q: Box, f: nat -> bool)
    requires Lists(s, notes, q, notes.Keys, f)
    ensures forall a, b :: 0 <= a < b < |s| ==> s[a].id != s[b].id
  {
  }

  lemma InPointsOf(s: seq<Point>)
    ensures forall p :: p in PointsOf(s) <==> p in s
  {
  }

  lemma NetSigns(a: seq<Entry>, i: nat, b: seq<Entry>, j: nat, id: nat)
    requires i <= |a| && j <= |b|
    ensures Gained(Traced(a, i), Traced(b, j))(id) == (NetBetween(a, i, b, j, id) > 0)
    ensures Lost(Traced(a, i), Traced(b, j))(id) == (NetBetween(a, i, b, j, id) < 0)
  {
  }

  /** Where the common ancestor is on both lines; the versions share its log. */
  lemma AncestorAt(v1: VersionNode, v2: VersionNode, lca: VersionNode) returns (i: nat, j: nat)
    requires v1.Valid() && v2.Valid() && lca in v1.line && lca in v2.line
    ensures i < |v1.line| && j < |v2.line| && v1.line[i] == lca && v2.line[j] == lca
    ensures v1.Log()[i..] == v2.Log()[j..]
  {
    i := PlaceInLine(v1.line, lca);
    j := PlaceInLine(v2.line, lca);
    LineAt(v1.line, i);
    LineAt(v2.line, j);
  }

  /** The root has no deltas, so tracing past it adds nothing. */
  lemma PastTheRoot(log: seq<Entry>, values: map<nat, Point>)
    requires Honest(log)
    ensures Traced(log, |log|) == Traced(log, |log| - 1)
    ensures NotedAlong(values, log, |log|) == NotedAlong(values, log, |log| - 1)
  {
    RootIsEmpty(log);
    assert AfterEntry(Traced(log, |log| - 1), log[|log| - 1]) == Traced(log, |log| - 1);
  }

  lemma RootIsEmpty(log: seq<Entry>)
    requires Honest(log)
    ensures log[|log| - 1].inserts == [] && log[|log| - 1].removes == []
    decreases |log|
  {
    if |log| > 1 {
      RootIsEmpty(log[1..]);
    }
  }

  /** The root of a line, as a log of its own. */
  ghost function RootLog(log: seq<Entry>): seq<Entry>
    requires log != []
  {
    log[|log| - 1..]
  }

  lemma PartedFromRoot(b: seq<Entry>)
    requires Proper(b)
    ensures b != [] && Parted(RootLog(b), 0, b, |b| - 1)
  {
    hide Proper, Ever, UniqueIds;
    ProperIds(b);
    var r, k := RootLog(b), |b| - 1;
    ProperFrom(b, k);
    EarlierEver(b, k);
    SubsetUnique(Ever(r), Ever(b));
    assert r[0..] == r;
  }

  lemma SubsetUnique(s: set<Point>, t: set<Point>)
    requires s <= t && UniqueIds(t)
    ensures UniqueIds(s + t)
  {
    assert s + t == t;
  }

  lemma ProperIds(log: seq<Entry>)
    requires Proper(log)
    ensures log != [] && UniqueIds(Ever(log))
  {
  }

  lemma NothingTracedYet(log: seq<Entry>)
    ensures Traced(log, 0) == map[] && NotedAlong(map[], log, 0) == map[]
  {
  }

  /** The branches traced and compared; v1 and v2 differ. */
  method TwoBranches(v1: VersionNode?, v2: VersionNode?, q: Box)
    returns (add: seq<Point>, remove: seq<Point>, ghost i: nat, ghost j: nat)
    requires ValidOrNull(v1) && ValidOrNull(v2)
    ensures i <= |LineFrom(v1)| && j <= |LineFrom(v2)|
    ensures |LogFrom(v1)| == |LineFrom(v1)| && |LogFrom(v2)| == |LineFrom(v2)|
    ensures v1 != null && v2 != null && i < |v1.line| ==>
              && j < |v2.line| && v1.line[i] == v2.line[j]
              && forall c :: c in v1.line && c in v2.line ==> c in v1.line[i].line
    ensures v1 != null && v2 != null && i == |v1.line| ==> j == |v2.line| && forall c :: c in v1.line ==> c !in v2.line
    ensures v1 == null ==> i == 0 && j == |LineFrom(v2)|
    ensures v2 == null ==> i == 0 && j == 0
    ensures var notes := NotesOf(LogFrom(v1), i, LogFrom(v2), j);
            && Lists(add, notes, q, notes.Keys, Gained(Traced(LogFrom(v1), i), Traced(LogFrom(v2), j)))
            && Lists(remove, notes, q, notes.Keys, Lost(Traced(LogFrom(v1), i), Traced(LogFrom(v2), j)))
    ensures SameTree(v1, v2) && Comparable(LogFrom(v1), LogFrom(v2)) ==>
              && IsChange(add, LogFrom(v1), LogFrom(v2), q) && IsChange(remove, LogFrom(v2), LogFrom(v1), q)
    ensures v1 == null && v2 != null && Proper(v2.Log()) ==>
              && IsChange(add, RootLog(v2.Log()), v2.Log(), q) && IsChange(remove, v2.Log(), RootLog(v2.Log()), q)
    ensures v2 == null ==> add == [] && remove == []
  {
    hide IsLine, LogOf, Traced, NotedAlong, Lists, Gained, Lost, Proper, Ever, UniqueIds, Up, PointInBox, IsChange,
        NotesOf, Comparable, KeyedById;
    ghost var a, b := LogFrom(v1), LogFrom(v2);
    var lca;
    lca, i, j := BranchPoint(v1, v2);
    AllNotesKeyed(a, i, b, j);
    var state1, values := TraceBranch(v1, lca, i, map[]);
    var state2;
    state2, values := TraceBranch(v2, lca, j, values);
    add, remove := CompareStates(values, state1, state2, q);
    if v2 == null {
      NothingAgainstNull(a, q, add, remove);
    } else if v1 == null {
      if Proper(b) {
        ChangesFromRoot(b, q, add, remove);
      }
    } else if SameTree(v1, v2) && Comparable(a, b) {
      AreParted(a, i, b, j);
      ListsAreChanges(a, i, b, j, q, add, remove);
    }
  }

  lemma Listed(s: seq<Point>, notes: map<nat, Point>, q: Box,
               state1: map<nat, int>, state2: map<nat, int>, gained: bool)
    requires Lists(s, notes, q, notes.Keys, if gained then Gained(state1, state2) else Lost(state1, state2))
    ensures forall a, b :: 0 <= a < b < |s| ==> s[a].id != s[b].id
    ensures forall p :: p in s <==>
              && p.id in notes && notes[p.id] == p && q.x1 <= p.x <= q.x2 && q.y1 <= p.y <= q.y2
              && if gained then ValueAt(state1, p.id) < ValueAt(state2, p.id)
                 else ValueAt(state2, p.id) < ValueAt(state1, p.id)
  {
  }

  /**
   * Against null a version is compared with its own root: the trace sees the
   * deltas of its line but no base.  Null as the second version changes nothing.
   */
  method MapSpatialDiff(v1: VersionNode?, v2: VersionNode?, q: Box, out: LogDiff) returns (ghost i: nat, ghost j: nat)
    requires ValidOrNull(v1) && ValidOrNull(v2)
    modifies out
    ensures |old(out.add)| <= |out.add| && out.add[..|old(out.add)|] == old(out.add)
    ensures |old(out.remove)| <= |out.remove| && out.remove[..|old(out.remove)|] == old(out.remove)
    ensures var add, remove := out.add[|old(out.add)|..], out.remove[|old(out.remove)|..];
            SameTree(v1, v2) && Comparable(LogFrom(v1), LogFrom(v2)) ==>
              && (forall p :: p in add <==>
                    && p in Visible(LogFrom(v2)) && p !in Visible(LogFrom(v1))
                    && q.x1 <= p.x <= q.x2 && q.y1 <= p.y <= q.y2)
              && (forall p :: p in remove <==>
                    && p in Visible(LogFrom(v1)) && p !in Visible(LogFrom(v2))
                    && q.x1 <= p.x <= q.x2 && q.y1 <= p.y <= q.y2)
    ensures var add, remove := out.add[|old(out.add)|..], out.remove[|old(out.remove)|..];
            && (forall a, b :: 0 <= a < b < |add| ==> add[a].id != add[b].id)
            && (forall a, b :: 0 <= a < b < |remove| ==> remove[a].id != remove[b].id)
    ensures v1 == null && v2 != null && Proper(v2.Log()) ==>
              && IsChange(out.add[|old(out.add)|..], RootLog(v2.Log()), v2.Log(), q)
              && IsChange(out.remove[|old(out.remove)|..], v2.Log(), RootLog(v2.Log()), q)
    ensures v1 == v2 || v2 == null ==> out.add == old(out.add) && out.remove == old(out.remove)
    ensures i <= |LineFrom(v1)| && j <= |LineFrom(v2)|
    ensures |LogFrom(v1)| == |LineFrom(v1)| && |LogFrom(v2)| == |LineFrom(v2)|
    ensures v1 != v2 && v1 != null && v2 != null && i < |v1.line| ==>
              && j < |v2.line| && v1.line[i] == v2.line[j]
              && forall c :: c in v1.line && c in v2.line ==> c in v1.line[i].line
    ensures v1 != v2 && v1 != null && v2 != null && i == |v1.line| ==>
              j == |v2.line| && forall c :: c in v1.line ==> c !in v2.line
    ensures v1 == null ==> i == 0 && j == |LineFrom(v2)|
    ensures v1 != v2 ==>
              var state1, state2 := Traced(LogFrom(v1), i), Traced(LogFrom(v2), j);
              var notes := NotedAlong(NotedAlong(map[], LogFrom(v1), i), LogFrom(v2), j);
              && (forall p :: p in out.add[|old(out.add)|..] <==>
                    && p.id in notes && notes[p.id] == p && q.x1 <= p.x <= q.x2 && q.y1 <= p.y <= q.y2
                    && ValueAt(state1, p.id) < ValueAt(state2, p.id))
              && (forall p :: p in out.remove[|old(out.remove)|..] <==>
                    && p.id in notes && notes[p.id] == p && q.x1 <= p.x <= q.x2 && q.y1 <= p.y <= q.y2
                    && ValueAt(state2, p.id) < ValueAt(state1, p.id))
  {
    hide IsLine, LogOf, Proper, Comparable, Traced, NotedAlong, Lists, Gained, Lost, Visible;
    ghost var n, k := |out.add|, |out.remove|;
    i, j := 0, 0;
    if v1 == v2 {
      NoChange(LogFrom(v1), q);
    } else {
      var add, remove;
      add, remove, i, j := TwoBranches(v1, v2, q);
      ghost var notes := NotesOf(LogFrom(v1), i, LogFrom(v2), j);
      Listed(add, notes, q, Traced(LogFrom(v1), i), Traced(LogFrom(v2), j), true);
      Listed(remove, notes, q, Traced(LogFrom(v1), i), Traced(LogFrom(v2), j), false);
      out.add := out.add + add;
      out.remove := out.remove + remove;
      assert out.add[n..] == add && out.remove[k..] == remove;
    }
  }

  lemma AllNotesKeyed(a: seq<Entry>, i: nat, b: seq<Entry>, j: nat)
    requires i <= |a| && j <= |b|
    ensures NotesOf(a, i, b, j) == NotedAlong(NotedAlong(map[], a, i), b, j) && KeyedById(NotesOf(a, i, b, j))
  {
    NotesKeyed(map[], a, i);
    NotesKeyed(NotedAlong(map[], a, i), b, j);
  }

  lemma AreParted(a: seq<Entry>, i: nat, b: seq<Entry>, j: nat)
    requires i < |a| && j < |b| && a[i..] == b[j..] && Comparable(a, b)
    ensures Parted(a, i, b, j)
  {
  }

  lemma NotesAre(a: seq<Entry>, i: nat, b: seq<Entry>, j: nat)
    requires i <= |a| && j <= |b|
    ensures NotesOf(a, i, b, j) == NotedAlong(NotedAlong(map[], a, i), b, j)
  {
  }

  lemma NoChange(log: seq<Entry>, q: Box)
    ensures IsChange([], log, log, q)
  {
  }

  /** The three climbing loops; they stop at once if a version is null. */
  method BranchPoint(v1: VersionNode?, v2: VersionNode?) returns (lca: VersionNode?, ghost i: nat, ghost j: nat)
    requires ValidOrNull(v1) && ValidOrNull(v2)
    ensures i <= |LineFrom(v1)| && j <= |LineFrom(v2)|
    ensures (v1 != null ==> lca == Up(v1.line, i)) && (v2 != null ==> lca == Up(v2.line, j))
    ensures v1 == null ==> lca == null
    ensures v1 != null && v2 != null && i < |v1.line| ==>
              && j < |v2.line| && v1.line[i] == v2.line[j]
              && forall c :: c in v1.line && c in v2.line ==> c in v1.line[i].line
    ensures v1 != null && v2 != null && i == |v1.line| ==> j == |v2.line| && forall c :: c in v1.line ==> c !in v2.line
    ensures v1 == null ==> i == 0 && j == |LineFrom(v2)|
    ensures v2 == null ==> i == 0 && j == 0
    ensures SameTree(v1, v2) ==> i < |LogFrom(v1)| && j < |LogFrom(v2)| && LogFrom(v1)[i..] == LogFrom(v2)[j..]
  {
    hide IsLine, LogOf, Up;
    lca, i, j := v1, 0, |LineFrom(v2)|;
    if v1 != null {
      UpAt(v1.line, 0);
    } else if v2 != null {
      UpAt(v2.line, j);
    }
    if v1 != null && v2 != null {
      lca := CommonAncestor(v1, v2);
      i, j := |v1.line|, |v2.line|;
      if lca != null {
        i, j := AncestorAt(v1, v2, lca);
      }
      UpAt(v1.line, i);
      UpAt(v2.line, j);
    }
  }

  lemma NothingAgainstNull(a: seq<Entry>, q: Box, add: seq<Point>, remove: seq<Point>)
    requires var notes := NotesOf(a, 0, [], 0);
             && Lists(add, notes, q, notes.Keys, Gained(Traced(a, 0), Traced([], 0)))
             && Lists(remove, notes, q, notes.Keys, Lost(Traced(a, 0), Traced([], 0)))
    ensures add == [] && remove == []
  {
    assert NotesOf(a, 0, [], 0) == map[];
    HeadIsMember(add);
    HeadIsMember(remove);
  }

  lemma HeadIsMember(s: seq<Point>)
    ensures s != [] ==> s[0] in s
  {
  }

  lemma ChangesFromRoot(b: seq<Entry>, q: Box, add: seq<Point>, remove: seq<Point>)
    requires Proper(b)
    requires var notes := NotesOf([], 0, b, |b|);
             && Lists(add, notes, q, notes.Keys, Gained(Traced([], 0), Traced(b, |b|)))
             && Lists(remove, notes, q, notes.Keys, Lost(Traced([], 0), Traced(b, |b|)))
    ensures IsChange(add, RootLog(b), b, q) && IsChange(remove, b, RootLog(b), q)
  {
    PartedFromRoot(b);
    PastTheRoot(b, map[]);
    NotesAre([], 0, b, |b|);
    NotesAre(RootLog(b), 0, b, |b| - 1);
    NothingTracedYet([]);
    NothingTracedYet(RootLog(b));
    hide Traced, NotedAlong, NotesOf, Lists, Gained, Lost, IsChange, Parted, Proper;
    ListsAreChanges(RootLog(b), 0, b, |b| - 1, q, add, remove);
  }
}
