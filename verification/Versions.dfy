/**
 * Whole runs: a base version and the commits that follow it.  Every version in
 * the history stays as it was, and each one's tree depends only on the points
 * it should hold, not on the commits that led there.
 */
module Versions {
  import opened Points
  import opened Sequences
  import opened Tries
  import opened Mvq

  datatype Change = Change(insertions: seq<Point>, deletions: seq<Point>)

  /** The points a run should end with: each change deletes first, one copy per match, then inserts. */
  ghost function Replay(m: multiset<Point>, changes: seq<Change>): multiset<Point>
    decreases |changes|
  {
    if changes == [] then m
    else Replay(m - multiset(changes[0].deletions) + multiset(changes[0].insertions), changes[1..])
  }

  /** The tree a run ends with. */
  ghost function CommitAll(t: Trie, changes: seq<Change>, leafSize: nat): Trie
    decreases |changes|
  {
    if changes == [] then t
    else CommitAll(CommitTrie(t, changes[0].insertions, changes[0].deletions, leafSize), changes[1..], leafSize)
  }

  /** A run holds exactly the replayed points, in the tree build makes of them. */
  lemma {:induction false} RunIsReplay(t: Trie, changes: seq<Change>, leafSize: nat)
    requires IsRoot(t, leafSize)
    ensures var u := CommitAll(t, changes, leafSize);
            && IsRoot(u, leafSize)
            && multiset(Contents(u)) == Replay(multiset(Contents(t)), changes)
            && (t != Nil || changes != [] ==> u != Nil && u == Version(Contents(u), leafSize))
    decreases |changes|
  {
    if changes == [] {
      if t != Nil {
        RootIsVersion(t, leafSize);
      }
    } else {
      CommitTrieContents(t, changes[0].insertions, changes[0].deletions, leafSize);
      RunIsReplay(CommitTrie(t, changes[0].insertions, changes[0].deletions, leafSize), changes[1..], leafSize);
    }
  }

  /** History independence: two runs that should end with the same points end with the same tree. */
  lemma HistoryIndependent(t: Trie, changes: seq<Change>, u: Trie, changes': seq<Change>, leafSize: nat)
    requires IsRoot(t, leafSize) && IsRoot(u, leafSize) && t != Nil && u != Nil
    requires Replay(multiset(Contents(t)), changes) == Replay(multiset(Contents(u)), changes')
    ensures CommitAll(t, changes, leafSize) == CommitAll(u, changes', leafSize)
  {
    RunIsReplay(t, changes, leafSize);
    RunIsReplay(u, changes', leafSize);
    SamePointsSameTree(CommitAll(t, changes, leafSize), CommitAll(u, changes', leafSize), leafSize);
  }

  lemma {:induction false} CommitAllSnoc(t: Trie, changes: seq<Change>, c: Change, leafSize: nat)
    ensures CommitAll(t, changes + [c], leafSize)
            == CommitTrie(CommitAll(t, changes, leafSize), c.insertions, c.deletions, leafSize)
    decreases |changes|
  {
    hide CommitTrie;
    if changes == [] {
      assert changes + [c] == [c];
      assert [c][1..] == [];
    } else {
      assert (changes + [c])[1..] == changes[1..] + [c];
      CommitAllSnoc(CommitTrie(t, changes[0].insertions, changes[0].deletions, leafSize), changes[1..], c, leafSize);
    }
  }

  /** x is an intact version with tree t, made of objects in nodes. */
  ghost predicate Holds(x: Node?, t: Trie, nodes: set<Node>)
    reads nodes
  {
    if x == null then t == Nil else (x in nodes && x.Repr <= nodes && x.Valid() && x.trie == t)
  }

  lemma HeldVersion(x: Node?, t: Trie, nodes: set<Node>)
    requires Holds(x, t, nodes)
    ensures ValidOrNull(x) && TrieOf(x) == t && ReprOf(x) <= nodes
  {
  }

  lemma HoldsMore(x: Node?, t: Trie, nodes: set<Node>, more: set<Node>)
    requires Holds(x, t, nodes) && nodes <= more
    ensures Holds(x, t, more)
  {
  }

  lemma NewVersion(x: Node, nodes: set<Node>)
    requires x.Valid() && x.Repr <= nodes
    ensures Holds(x, x.trie, nodes)
  {
  }

  /** The base version; nothing is built for an empty data set. */
  method BuildBase(tree: Tree, P: seq<Point>) returns (root: Node?)
    ensures ValidOrNull(root) && fresh(ReprOf(root)) && (root != null ==> root in root.Repr)
    ensures TrieOf(root) == if P == [] then Nil else Version(Sort(P), tree.leafSize)
  {
    root := null;
    if P != [] {
      SortSpec(P);
      Cells.RootCell(Sort(P));
      root := tree.Build(Sort(P), Cells.ROOT_BITS, 0);
    }
  }

  lemma BaseIsRoot(P: seq<Point>, leafSize: nat)
    ensures IsRoot(if P == [] then Nil else Version(Sort(P), leafSize), leafSize)
    ensures multiset(Contents(if P == [] then Nil else Version(Sort(P), leafSize))) == multiset(P)
  {
    SortSpec(P);
    VersionIsRoot(Sort(P), leafSize);
  }

  /** The list of all versions of one data set; `nodes` are the objects any of them is made of. */
  class VersionHistory {
    const tree: Tree
    var master: Node?
    var history: seq<Node?>
    ghost var base: Trie
    ghost var changes: seq<Change>
    ghost var nodes: set<Node>

    ghost predicate Valid()
      reads this, nodes
    {
      && IsRoot(base, tree.leafSize)
      && |history| == |changes| + 1 && master == history[|changes|]
      && (forall i :: 0 <= i < |history| ==> VersionAt(i))
      && forall i :: 0 <= i < |changes| ==> SharesAt(i)
    }

    /** Version i is intact: its tree is the one the first i changes lead to. */
    ghost predicate VersionAt(i: nat)
      reads this, nodes
    {
      && i < |history| && i <= |changes| && Holds(history[i], CommitAll(base, changes[..i], tree.leafSize), nodes)
    }

    /** Version i + 1 shares with version i exactly what change i leaves aside. */
    ghost predicate SharesAt(i: nat)
      reads this, nodes
    {
      && VersionAt(i) && VersionAt(i + 1) && i < |changes|
      && CommitShares(ShapeOf(history[i]), ShapeOf(history[i + 1]), Contents(TrieOf(history[i])),
                      changes[i].insertions, changes[i].deletions, tree.leafSize)
    }

    lemma HasVersion(i: nat)
      requires i < |history| && i <= |changes| && Holds(history[i], CommitAll(base, changes[..i], tree.leafSize), nodes)
      ensures VersionAt(i)
    {
    }

    lemma HasSharing(i: nat)
      requires i < |changes| && VersionAt(i) && VersionAt(i + 1)
      requires i + 1 < |history| && CommitShares(ShapeOf(history[i]), ShapeOf(history[i + 1]),
                   Contents(TrieOf(history[i])), changes[i].insertions, changes[i].deletions, tree.leafSize)
      ensures SharesAt(i)
    {
    }

    constructor (leafSize: nat, P: seq<Point>)
      ensures Valid() && fresh(this) && fresh(nodes) && tree.leafSize == leafSize && changes == []
      ensures base == if P == [] then Nil else Version(Sort(P), leafSize)
      ensures multiset(Contents(base)) == multiset(P) && TrieOf(master) == base
    {
      var t := new Tree(leafSize);
      var root := BuildBase(t, P);
      tree, master, history, changes := t, root, [root], [];
      base, nodes := TrieOf(root), ReprOf(root);
      new;
      BaseIsRoot(P, leafSize);
      hide IsRoot, Version, Node.Valid, Sort, Contents, CommitTrie, CommitShares;
      assert changes[..0] == [];
      assert Holds(root, base, nodes);
      hide Holds;
      HasVersion(0);
    }

    lemma AllHeld(more: set<Node>)
      requires Valid() && nodes <= more
      ensures forall i :: 0 <= i <= |changes| ==> Holds(history[i], CommitAll(base, changes[..i], tree.leafSize), more)
      ensures forall i :: 0 <= i < |changes| ==>
                CommitShares(ShapeOf(history[i]), ShapeOf(history[i + 1]), Contents(TrieOf(history[i])),
                             changes[i].insertions, changes[i].deletions, tree.leafSize)
    {
      hide Holds, CommitAll, IsRoot, Contents, CommitShares;
      forall i | 0 <= i <= |changes|
        ensures Holds(history[i], CommitAll(base, changes[..i], tree.leafSize), more)
      {
        assert VersionAt(i);
        HoldsMore(history[i], CommitAll(base, changes[..i], tree.leafSize), nodes, more);
      }
      forall i | 0 <= i < |changes|
        ensures CommitShares(ShapeOf(history[i]), ShapeOf(history[i + 1]), Contents(TrieOf(history[i])),
                             changes[i].insertions, changes[i].deletions, tree.leafSize)
      {
        assert SharesAt(i);
      }
    }

    /** Appends a version; no object of any earlier version is written. */
    method Commit(insertions: seq<Point>, deletions: seq<Point>)
      requires Valid()
      modifies this
      ensures Valid()
      ensures history == old(history) + [master] && base == old(base)
      ensures changes == old(changes) + [Change(insertions, deletions)]
      ensures multiset(Contents(TrieOf(master)))
              == old(multiset(Contents(TrieOf(master)))) - multiset(deletions) + multiset(insertions)
      ensures old(nodes) <= nodes && fresh(nodes - old(nodes))
      ensures forall n :: n in old(nodes) ==> unchanged(n)
      ensures CommitShares(old(ShapeOf(master)), ShapeOf(master), old(Contents(TrieOf(master))),
                           insertions, deletions, tree.leafSize)
    {
      hide Holds, CommitAll, IsRoot, Contents, CommitTrie, Node.Valid, CommitShares;
      RunIsReplay(base, changes, tree.leafSize);
      assert changes[..|changes|] == changes;
      assert VersionAt(|changes|);
      HeldVersion(master, CommitAll(base, changes, tree.leafSize), nodes);
      var next := tree.Commit(master, insertions, deletions);
      ghost var c := Change(insertions, deletions);
      CommitAllSnoc(base, changes, c, tree.leafSize);
      ghost var more := nodes + next.Repr;
      NewVersion(next, more);
      AllHeld(more);
      Append(next, c, more);
    }

    /** Puts a version behind the others. */
    method Append(next: Node, ghost c: Change, ghost more: set<Node>)
      requires |history| == |changes| + 1 && IsRoot(base, tree.leafSize) && next in more
      requires forall i :: 0 <= i <= |changes| ==> Holds(history[i], CommitAll(base, changes[..i], tree.leafSize), more)
      requires Holds(next, CommitAll(base, changes + [c], tree.leafSize), more)
      requires forall i :: 0 <= i < |changes| ==>
                 CommitShares(ShapeOf(history[i]), ShapeOf(history[i + 1]), Contents(TrieOf(history[i])),
                              changes[i].insertions, changes[i].deletions, tree.leafSize)
      requires CommitShares(ShapeOf(history[|changes|]), next.shape, Contents(TrieOf(history[|changes|])),
                            c.insertions, c.deletions, tree.leafSize)
      modifies this
      ensures Valid() && nodes == more && master == next && base == old(base)
      ensures history == old(history) + [next] && changes == old(changes) + [c]
    {
      hide Holds, CommitAll, IsRoot, Contents, Node.Valid, CommitShares, VersionAt, SharesAt;
      ghost var k, was := |changes|, changes;
      master := next;
      history := history + [next];
      changes, nodes := changes + [c], more;
      forall i | 0 <= i < |history|
        ensures VersionAt(i)
      {
        assert changes[..i] == if i <= k then was[..i] else changes;
        HasVersion(i);
      }
      forall i | 0 <= i < |changes|
        ensures SharesAt(i)
      {
        HasSharing(i);
      }
    }
  }
}
