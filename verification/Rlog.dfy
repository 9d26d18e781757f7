/**
 * The version log: a tree of versions, each with its deltas and perhaps a
 * cached base, and the compaction that decides when to cache one.
 */
module Rlog {
  import opened Points
  import opened Sequences
  import opened Logs

  class VersionNode {
    var parent: VersionNode?
    var depth: nat
    var deltaInserts: seq<Point>
    var deltaRemoves: seq<Point>
    var cachedBase: Option<seq<Point>>
    var cumulativeLogSize: nat
    var currentBaseSize: nat
    /** The node and its ancestors, up to the root. */
    ghost var line: seq<VersionNode>

    constructor ()
      ensures parent == null && depth == 0 && deltaInserts == [] && deltaRemoves == []
      ensures cachedBase == None && cumulativeLogSize == 0 && currentBaseSize == 0
    {
      parent, depth, deltaInserts, deltaRemoves := null, 0, [], [];
      cachedBase, cumulativeLogSize, currentBaseSize := None, 0, 0;
    }

    function AsEntry(): Entry
      reads this
    {
      Entry(deltaInserts, deltaRemoves, cachedBase)
    }

    ghost predicate Valid()
      reads this, line
    {
      line != [] && line[0] == this && IsLine(line)
    }

    ghost function Log(): seq<Entry>
      reads this, line
    {
      LogOf(line)
    }
  }

  ghost function LogOf(line: seq<VersionNode>): (log: seq<Entry>)
    reads line
    ensures |log| == |line|
  {
    if line == [] then [] else [line[0].AsEntry()] + LogOf(line[1..])
  }

  /** The bookkeeping of a node against its log. */
  ghost predicate Sized(n: VersionNode, log: seq<Entry>)
    reads n
  {
    n.cumulativeLogSize == LogSize(log) && n.currentBaseSize == |BaseOf(log)| && Honest(log)
  }

  ghost predicate IsLine(line: seq<VersionNode>)
    reads line
  {
    && line != [] && line[0].line == line && line[0].depth == |line| - 1
    && line[0] !in line[1..]
    && Sized(line[0], LogOf(line))
    && (if |line| == 1 then line[0].parent == null else line[0].parent == line[1] && IsLine(line[1..]))
  }

  lemma {:induction false} LineAt(line: seq<VersionNode>, k: nat)
    requires IsLine(line) && k < |line|
    ensures IsLine(line[k..]) && line[k].line == line[k..] && line[k].depth == |line| - 1 - k
    ensures line[k].parent == if k + 1 < |line| then line[k + 1] else null
    ensures LogOf(line)[k..] == LogOf(line[k..]) && LogOf(line)[k] == line[k].AsEntry()
  {
    if k == 0 {
      assert line[0..] == line && LogOf(line)[0..] == LogOf(line);
    } else {
      LineAt(line[1..], k - 1);
      assert line[1..][k - 1..] == line[k..] && LogOf(line)[1..][k - 1..] == LogOf(line)[k..];
    }
  }

  lemma EntryAt(line: seq<VersionNode>, k: nat)
    requires IsLine(line) && k < |line|
    ensures LogOf(line)[k] == line[k].AsEntry()
    ensures line[k].parent == if k + 1 < |line| then line[k + 1] else null
  {
    LineAt(line, k);
  }

  // ----- the query view -----

  method AddIds(ids: set<nat>, s: seq<Point>) returns (r: set<nat>)
    ensures r == ids + Ids(s)
  {
    r := ids;
    for i := 0 to |s|
      invariant r == ids + Ids(s[..i])
    {
      assert s[..i + 1] == s[..i] + [s[i]];
      r := r + {s[i].id};
    }
    assert s[..|s|] == s;
  }

  method AppendAlive(out: seq<Point>, s: seq<Point>, dead: set<nat>) returns (r: seq<Point>)
    ensures r == out + Alive(s, dead)
  {
    r := out;
    for i := 0 to |s|
      invariant r == out + Alive(s[..i], dead)
    {
      assert s[..i + 1] == s[..i] + [s[i]];
      AliveConcat(s[..i], [s[i]], dead);
      AliveOfOne(s[i], dead);
      if s[i].id !in dead {
        r := r + [s[i]];
      }
    }
    assert s[..|s|] == s;
  }

  lemma AliveOfOne(p: Point, dead: set<nat>)
    ensures Alive([p], dead) == if p.id in dead then [] else [p]
  {
    FilterHead([p], NotIn(dead));
    assert [p][1..] == [];
  }

  lemma RootIsCached(log: seq<Entry>)
    requires Honest(log)
    ensures log[|log| - 1].cached.Some?
    decreases |log|
  {
    if |log| > 1 {
      RootIsCached(log[1..]);
    }
  }

  lemma {:induction false} UncachedPrefix(log: seq<Entry>, k: nat)
    requires k <= |log| && forall i :: 0 <= i < k ==> log[i].cached.None?
    ensures BaseOf(log) == BaseOf(log[k..])
  {
    if k > 0 {
      UncachedPrefix(log[1..], k - 1);
      assert log[1..][k - 1..] == log[k..];
    } else {
      assert log[0..] == log;
    }
  }

  lemma LogStep(log: seq<Entry>, j: nat)
    requires j < |log| && log[j].cached.None?
    ensures Removed(log[j..]) == Removed(log[j + 1..]) + Ids(log[j].removes)
    ensures Inserted(log[j..]) == Inserted(log[j + 1..]) + log[j].inserts
  {
    assert log[j..][1..] == log[j + 1..];
  }

  lemma LogStart(log: seq<Entry>, k: nat)
    requires k < |log| && log[k].cached.Some?
    ensures Removed(log[k..]) == {} && Inserted(log[k..]) == [] && BaseOf(log[k..]) == log[k].cached.value
  {
  }

  /** Walks up to the nearest cached base. */
  method FindBase(node: VersionNode) returns (base: Option<seq<Point>>, path: seq<VersionNode>)
    requires node.Valid()
    ensures base == Some(BaseOf(node.Log()))
    ensures |path| < |node.line| && path == node.line[..|path|]
    ensures Removed(node.Log()[|path|..]) == {} && Inserted(node.Log()[|path|..]) == []
    ensures NearestBase(node.Log(), |path|)
  {
    ghost var log, line := node.Log(), node.line;
    RootIsCached(log);
    hide IsLine, LogOf, Honest, Removed, Inserted, BaseOf;
    path := [];
    var curr: VersionNode? := node;
    base := None;
    while curr != null && base.None?
      invariant |path| <= |line| && path == line[..|path|]
      invariant forall i :: 0 <= i < |path| ==> log[i].cached.None?
      invariant base.None? ==> curr == (if |path| < |line| then line[|path|] else null)
      invariant base.Some? ==> |path| < |line| && log[|path|].cached == base
      decreases |line| - |path|, if base.None? then 1 else 0
    {
      EntryAt(line, |path|);
      if curr.cachedBase.Some? {
        base := curr.cachedBase;
      } else {
        path := path + [curr];
        curr := curr.parent;
      }
    }
    LogStart(log, |path|);
    UncachedPrefix(log, |path|);
  }

  /** A line's log since its nearest base, in the fields of its versions. */
  lemma ViewOfLine(node: VersionNode, k: nat)
    requires node.Valid() && NearestBase(node.Log(), k)
    ensures k < |node.line| && node.line[k].cachedBase == Some(BaseOf(node.Log()))
    ensures forall i :: 0 <= i < k ==> node.line[i].cachedBase.None?
    ensures forall id :: id in Removed(node.Log()) <==>
              exists i, q :: 0 <= i < k && q in node.line[i].deltaRemoves && q.id == id
    ensures forall p :: p in Inserted(node.Log()) <==> exists i :: 0 <= i < k && p in node.line[i].deltaInserts
  {
    var log, line := node.Log(), node.line;
    hide IsLine, LogOf;
    SinceBase(log, k);
    forall i | 0 <= i <= k
      ensures log[i] == Entry(line[i].deltaInserts, line[i].deltaRemoves, line[i].cachedBase)
    {
      EntryAt(line, i);
    }
  }

  /** The base, the ids removed since, oldest version first, and the inserts that survive them. */
  method GetQueryView(node: VersionNode)
    returns (base: Option<seq<Point>>, removedIds: set<nat>, pending: seq<Point>, ghost k: nat)
    requires node.Valid()
    ensures base == Some(BaseOf(node.Log())) && removedIds == Removed(node.Log())
    ensures pending == Alive(Inserted(node.Log()), removedIds)
    ensures k < |node.line| && node.line[k].cachedBase == base && base.Some?
    ensures forall i :: 0 <= i < k ==> node.line[i].cachedBase.None?
    ensures forall id :: id in removedIds <==>
              exists i, q :: 0 <= i < k && q in node.line[i].deltaRemoves && q.id == id
    ensures forall p :: p in pending <==>
              p.id !in removedIds && exists i :: 0 <= i < k && p in node.line[i].deltaInserts
  {
    hide IsLine, LogOf, Honest, Removed, Inserted, BaseOf, Alive, Ids;
    ghost var log := node.Log();
    var path;
    base, path := FindBase(node);
    k := |path|;
    ViewOfLine(node, k);
    AliveAll(Inserted(log), Removed(log));
    removedIds := {};
    for j := |path| downto 0
      invariant removedIds == Removed(log[j..])
    {
      LineAt(node.line, j);
      LogStep(log, j);
      removedIds := AddIds(removedIds, path[j].deltaRemoves);
    }
    pending := [];
    AliveOfNone(removedIds);
    for j := |path| downto 0
      invariant pending == Alive(Inserted(log[j..]), removedIds)
    {
      LineAt(node.line, j);
      LogStep(log, j);
      AliveConcat(Inserted(log[j + 1..]), log[j].inserts, removedIds);
      pending := AppendAlive(pending, path[j].deltaInserts, removedIds);
    }
    assert log[0..] == log;
  }

  lemma AliveOfNone(dead: set<nat>)
    ensures Alive([], dead) == []
  {
  }

  // ----- compaction -----

  /** The node's log after compaction: the same deltas, and what the version showed as its base. */
  ghost function Compacted(log: seq<Entry>): seq<Entry>
    requires log != []
  {
    [log[0].(cached := Some(Visible(log)))] + log[1..]
  }

  /** Whether the log has grown to p times the base. */
  ghost predicate Overgrown(log: seq<Entry>, p: real) { LogSize(log) as real >= p * |BaseOf(log)| as real }

  /** The log a new version ends with. */
  ghost function Settled(log: seq<Entry>, p: real): seq<Entry>
    requires log != []
  {
    if Overgrown(log, p) then Compacted(log) else log
  }

  lemma CompactedHonest(log: seq<Entry>)
    requires |log| > 1 && Honest(log) && log[0].cached.None?
    ensures Honest(Compacted(log)) && LogSize(Compacted(log)) == 0 && BaseOf(Compacted(log)) == Visible(log)
  {
    assert Uncached(Compacted(log)) == log;
    assert Compacted(log)[1..] == log[1..];
  }

  /** Compaction changes neither what a version shows nor what replay gives. */
  lemma SettledShowsTheSame(log: seq<Entry>, p: real)
    requires |log| > 1 && Honest(log) && log[0].cached.None?
    ensures Honest(Settled(log, p)) && Visible(Settled(log, p)) == Visible(log)
    ensures Replay(Settled(log, p)) == Replay(log)
  {
    if Overgrown(log, p) {
      CompactedHonest(log);
      VisibleOfCached(Compacted(log));
    }
  }

  method CheckCompact(node: VersionNode, p: real)
    requires node.Valid() && |node.line| > 1 && node.cachedBase.None?
    modifies node`cachedBase, node`cumulativeLogSize, node`currentBaseSize
    ensures node.Valid() && node.Log() == Settled(old(node.Log()), p)
    ensures node.cachedBase.Some? <==> old(node.cumulativeLogSize) as real >= p * old(node.currentBaseSize) as real
    ensures node.cachedBase.Some? ==> node.cumulativeLogSize == 0 && node.currentBaseSize == |node.cachedBase.value|
    ensures node.cachedBase.None? ==> unchanged(node)
  {
    hide LogOf, IsLine, LogSize, BaseOf, Visible, Honest, Alive, Removed, Inserted, Compacted;
    ghost var log, rest := node.Log(), node.line[1..];
    LineParts(node);
    if node.cumulativeLogSize as real >= p * node.currentBaseSize as real {
      var base, removedIds, pending, _ := GetQueryView(node);
      var next := AppendAlive([], base.value, removedIds);
      next := next + pending;
      VisibleIs(log);
      CompactedHonest(log);
      node.cachedBase := Some(next);
      node.currentBaseSize := |next|;
      node.cumulativeLogSize := 0;
      CompactedIs(log, node.AsEntry());
      LineWhole(node, log[1..]);
    }
  }

  lemma VisibleIs(log: seq<Entry>)
    ensures Visible(log) == [] + Alive(BaseOf(log), Removed(log)) + Alive(Inserted(log), Removed(log))
  {
  }

  lemma CompactedIs(log: seq<Entry>, e: Entry)
    requires log != [] && e == log[0].(cached := Some(Visible(log)))
    ensures Compacted(log) == [e] + log[1..]
  {
  }

  /** A node's own line, and the part it only reads. */
  lemma LineParts(node: VersionNode)
    requires node.Valid() && |node.line| > 1
    ensures node !in node.line[1..] && IsLine(node.line[1..]) && Sized(node, node.Log())
    ensures LogOf(node.line[1..]) == node.Log()[1..] && node.Log()[0] == node.AsEntry() && |node.Log()| > 1
    ensures node.parent == node.line[1] && node.depth == |node.line| - 1
  {
  }

  lemma LineWhole(node: VersionNode, rest: seq<Entry>)
    requires |node.line| > 1 && node.line[0] == node && node !in node.line[1..] && IsLine(node.line[1..])
    requires LogOf(node.line[1..]) == rest && Sized(node, [node.AsEntry()] + rest)
    requires node.parent == node.line[1] && node.depth == |node.line| - 1
    ensures node.Valid() && node.Log() == [node.AsEntry()] + rest
  {
  }

  method MapInit(basePoints: seq<Point>) returns (node: VersionNode)
    ensures fresh(node) && node.Valid() && node.line == [node] && node.parent == null && node.depth == 0
    ensures node.cumulativeLogSize == 0 && node.currentBaseSize == |basePoints|
    ensures node.Log() == [Entry([], [], Some(basePoints))]
  {
    node := new VersionNode();
    node.cachedBase := Some(basePoints);
    node.currentBaseSize := |basePoints|;
    node.line := [node];
  }

  method MapInsert(parent: VersionNode, points: seq<Point>, p: real) returns (node: VersionNode)
    requires parent.Valid()
    ensures fresh(node) && node.Valid() && node.line == [node] + parent.line
    ensures node.Log() == Settled([Entry(points, [], None)] + parent.Log(), p)
    ensures node.parent == parent && node.depth == parent.depth + 1
    ensures node.deltaInserts == points && node.deltaRemoves == []
    ensures node.cachedBase.Some? <==>
              (parent.cumulativeLogSize + |points|) as real >= p * parent.currentBaseSize as real
    ensures node.cachedBase.Some? ==> node.cumulativeLogSize == 0 && node.currentBaseSize == |node.cachedBase.value|
    ensures node.cachedBase.None? ==>
              && node.cumulativeLogSize == parent.cumulativeLogSize + |points|
              && node.currentBaseSize == parent.currentBaseSize
  {
    hide IsLine, LogOf, LogSize, BaseOf, Honest, Settled;
    node := new VersionNode();
    node.parent := parent;
    node.depth := parent.depth + 1;
    node.currentBaseSize := parent.currentBaseSize;
    node.cumulativeLogSize := parent.cumulativeLogSize + |points|;
    node.deltaInserts := points;
    node.line := [node] + parent.line;
    Extends(node, parent);
    CheckCompact(node, p);
  }

  method MapDelete(parent: VersionNode, points: seq<Point>, p: real) returns (node: VersionNode)
    requires parent.Valid()
    ensures fresh(node) && node.Valid() && node.line == [node] + parent.line
    ensures node.Log() == Settled([Entry([], points, None)] + parent.Log(), p)
    ensures node.parent == parent && node.depth == parent.depth + 1
    ensures node.deltaInserts == [] && node.deltaRemoves == points
    ensures node.cachedBase.Some? <==>
              (parent.cumulativeLogSize + |points|) as real >= p * parent.currentBaseSize as real
    ensures node.cachedBase.Some? ==> node.cumulativeLogSize == 0 && node.currentBaseSize == |node.cachedBase.value|
    ensures node.cachedBase.None? ==>
              && node.cumulativeLogSize == parent.cumulativeLogSize + |points|
              && node.currentBaseSize == parent.currentBaseSize
  {
    hide IsLine, LogOf, LogSize, BaseOf, Honest, Settled;
    node := new VersionNode();
    node.parent := parent;
    node.depth := parent.depth + 1;
    node.currentBaseSize := parent.currentBaseSize;
    node.cumulativeLogSize := parent.cumulativeLogSize + |points|;
    node.deltaRemoves := points;
    node.line := [node] + parent.line;
    Extends(node, parent);
    CheckCompact(node, p);
  }

  /** A node set up over a version, before compaction. */
  lemma Extends(node: VersionNode, parent: VersionNode)
    requires parent.Valid() && node !in parent.line && node.line == [node] + parent.line
    requires node.parent == parent && node.depth == parent.depth + 1 && node.cachedBase.None?
    requires node.currentBaseSize == parent.currentBaseSize
    requires node.cumulativeLogSize == parent.cumulativeLogSize + |node.deltaInserts| + |node.deltaRemoves|
    ensures node.Valid() && node.Log() == [node.AsEntry()] + parent.Log()
  {
    assert node.line[1..] == parent.line;
    ExtendedSize(node.AsEntry(), parent.Log());
    LineWhole(node, parent.Log());
  }

  lemma ExtendedSize(e: Entry, log: seq<Entry>)
    requires Honest(log) && e.cached.None?
    ensures var next := [e] + log;
            LogSize(next) == LogSize(log) + |e.inserts| + |e.removes| && BaseOf(next) == BaseOf(log) && Honest(next)
  {
    assert ([e] + log)[1..] == log;
  }

  // ----- a point that is put back -----

  /**
   * One point, deleted and inserted again, all at one ratio: the view has it
   * if the deletion was compacted away, which the ratio alone decides.
   */
  method PutBackRun(p: Point, ratio: real) returns (node: VersionNode)
    ensures node.Valid() && Replay(node.Log()) == [p]
    ensures Visible(node.Log()) == if ratio <= 1.0 then [p] else []
  {
    hide IsLine, LogOf, Visible, Honest;
    var root := MapInit([p]);
    var gone := MapDelete(root, [p], ratio);
    AfterRemoval(p, ratio);
    node := MapInsert(gone, [p], ratio);
    AfterPutBack(p, ratio);
  }

  lemma AfterRemoval(p: Point, ratio: real)
    ensures Settled([Entry([], [p], None)] + [Entry([], [], Some([p]))], ratio)
            == if ratio <= 1.0 then TakenAway(p) else Taken(p)
  {
    var log := [Entry([], [p], None)] + [Entry([], [], Some([p]))];
    assert log == Taken(p);
    TakenIsGone(p);
    assert log[1..] == [Entry([], [], Some([p]))];
    assert LogSize(log) == 1 && BaseOf(log) == [p];
    assert Compacted(log) == TakenAway(p);
  }

  lemma AfterPutBack(p: Point, ratio: real)
    ensures var log := Settled([Entry([p], [], None)] + (if ratio <= 1.0 then TakenAway(p) else Taken(p)), ratio);
            Visible(log) == (if ratio <= 1.0 then [p] else []) && Replay(log) == [p]
  {
    hide Visible, Replay;
    ReinsertionIsLost(p);
    ReinsertionIsShown(p);
    AwayIsHonest(p);
    SettledShowsTheSame(if ratio <= 1.0 then PutBackLater(p) else PutBack(p), ratio);
  }

  lemma AwayIsHonest(p: Point)
    ensures Honest(PutBackLater(p)) && Replay(PutBackLater(p)) == [p]
  {
    var log := PutBackLater(p);
    assert log[1..] == TakenAway(p) && TakenAway(p)[1..] == [Entry([], [], Some([p]))];
    TakenIsGone(p);
    assert Uncached(TakenAway(p)) == Taken(p);
    assert Ids([p]) == {p.id} && Alive([p], {p.id}) == [];
    assert Replay(TakenAway(p)) == [];
    assert Alive([], Ids([])) == [];
  }
}
