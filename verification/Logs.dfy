/**
 * The version log as values: entries from a version back to its root, newest
 * first, and what a query sees of them against replaying them in order.
 */
module Logs {
  import opened Points
  import opened Sequences

  datatype Option<T> = None | Some(value: T)

  /** One version's deltas and, if it was compacted, its base. */
  datatype Entry = Entry(inserts: seq<Point>, removes: seq<Point>, cached: Option<seq<Point>>)

  function Ids(s: seq<Point>): set<nat> { set p | p in s :: p.id }

  function NotIn(dead: set<nat>): Point -> bool {
    (p: Point) => p.id !in dead
  }

  function Alive(s: seq<Point>, dead: set<nat>): seq<Point> { Filter(s, NotIn(dead)) }

  lemma AliveConcat(a: seq<Point>, b: seq<Point>, dead: set<nat>)
    ensures Alive(a + b, dead) == Alive(a, dead) + Alive(b, dead)
  {
    FilterConcat(a, b, NotIn(dead));
  }

  lemma {:induction false} AliveTwice(s: seq<Point>, dead: set<nat>, more: set<nat>)
    ensures Alive(Alive(s, dead), more) == Alive(s, dead + more)
  {
    if s != [] {
      AliveTwice(s[1..], dead, more);
      AliveConcat(Kept(s[0], NotIn(dead)), Alive(s[1..], dead), more);
    }
  }

  /** Nothing is dropped exactly when no id is dead. */
  lemma {:induction false} AliveAll(s: seq<Point>, dead: set<nat>)
    ensures Alive(s, dead) == s <==> Ids(s) !! dead
    ensures |Alive(s, dead)| <= |s|
    ensures forall p :: p in Alive(s, dead) <==> p in s && p.id !in dead
  {
    if s != [] {
      var t := s[1..];
      AliveAll(t, dead);
      assert s == [s[0]] + t;
      assert Ids(s) == {s[0].id} + Ids(t);
      if s[0].id in dead {
        assert Alive(s, dead) == Alive(t, dead);
      } else {
        assert Alive(s, dead) == [s[0]] + Alive(t, dead);
        assert Alive(s, dead)[1..] == Alive(t, dead);
      }
    }
  }

  // ----- what a query sees -----

  /** The nearest cached base. */
  function BaseOf(log: seq<Entry>): seq<Point> {
    if log == [] then []
    else if log[0].cached.Some? then log[0].cached.value
    else BaseOf(log[1..])
  }

  /** The ids removed since then. */
  function Removed(log: seq<Entry>): set<nat> {
    if log == [] || log[0].cached.Some? then {}
    else Removed(log[1..]) + Ids(log[0].removes)
  }

  /** The points inserted since then, oldest first. */
  function Inserted(log: seq<Entry>): seq<Point> {
    if log == [] || log[0].cached.Some? then []
    else Inserted(log[1..]) + log[0].inserts
  }

  function Visible(log: seq<Entry>): seq<Point> {
    Alive(BaseOf(log), Removed(log)) + Alive(Inserted(log), Removed(log))
  }

  /** How many deltas lie between the version and its nearest base. */
  function LogSize(log: seq<Entry>): nat {
    if log == [] || log[0].cached.Some? then 0
    else LogSize(log[1..]) + |log[0].inserts| + |log[0].removes|
  }

  /** k is the nearest version with a base. */
  ghost predicate NearestBase(log: seq<Entry>, k: nat) {
    k < |log| && log[k].cached.Some? && forall i :: 0 <= i < k ==> log[i].cached.None?
  }

  lemma {:induction false} SinceBase(log: seq<Entry>, k: nat)
    requires NearestBase(log, k)
    ensures BaseOf(log) == log[k].cached.value
    ensures forall id :: id in Removed(log) <==> exists i, q :: 0 <= i < k && q in log[i].removes && q.id == id
    ensures forall p :: p in Inserted(log) <==> exists i :: 0 <= i < k && p in log[i].inserts
    decreases k
  {
    if k > 0 {
      var rest := log[1..];
      SinceBase(rest, k - 1);
      RemovedSince(log, k);
      InsertedSince(log, k);
    }
  }

  lemma RemovedSince(log: seq<Entry>, k: nat)
    requires 0 < k < |log| && log[0].cached.None?
    requires var rest := log[1..];
             forall id :: id in Removed(rest) <==> exists i, q :: 0 <= i < k - 1 && q in rest[i].removes && q.id == id
    ensures forall id :: id in Removed(log) <==> exists i, q :: 0 <= i < k && q in log[i].removes && q.id == id
  {
    var rest := log[1..];
    forall id
      ensures id in Removed(log) <==> exists i, q :: 0 <= i < k && q in log[i].removes && q.id == id
    {
      if id in Removed(rest) {
        var i, q :| 0 <= i < k - 1 && q in rest[i].removes && q.id == id;
        var j := i + 1;
        assert q in log[j].removes;
      }
      if i, q :| 0 <= i < k && q in log[i].removes && q.id == id {
        if i > 0 {
          var j := i - 1;
          assert q in rest[j].removes;
        }
      }
    }
  }

  lemma InsertedSince(log: seq<Entry>, k: nat)
    requires 0 < k < |log| && log[0].cached.None?
    requires var rest := log[1..];
             forall p :: p in Inserted(rest) <==> exists i :: 0 <= i < k - 1 && p in rest[i].inserts
    ensures forall p :: p in Inserted(log) <==> exists i :: 0 <= i < k && p in log[i].inserts
  {
    var rest := log[1..];
    forall p
      ensures p in Inserted(log) <==> exists i :: 0 <= i < k && p in log[i].inserts
    {
      if p in Inserted(rest) {
        var i :| 0 <= i < k - 1 && p in rest[i].inserts;
        var j := i + 1;
        assert p in log[j].inserts;
      }
      if i :| 0 <= i < k && p in log[i].inserts {
        if i > 0 {
          var j := i - 1;
          assert p in rest[j].inserts;
        }
      }
    }
  }

  /** What a version shows: points of the nearest base and of the versions since, but no id removed since. */
  lemma VisiblePoints(log: seq<Entry>, k: nat, p: Point)
    requires k < |log| && log[k].cached.Some? && forall i :: 0 <= i < k ==> log[i].cached.None?
    ensures p in Visible(log) <==>
              && (p in log[k].cached.value || exists i :: 0 <= i < k && p in log[i].inserts)
              && !exists i, q :: 0 <= i < k && q in log[i].removes && q.id == p.id
  {
    SinceBase(log, k);
    AliveAll(BaseOf(log), Removed(log));
    AliveAll(Inserted(log), Removed(log));
  }

  // ----- replay in order -----

  function Apply(contents: seq<Point>, e: Entry): seq<Point> {
    Alive(contents, Ids(e.removes)) + e.inserts
  }

  /** The root's points, changed by every later delta in turn. */
  function Replay(log: seq<Entry>): seq<Point> {
    if |log| <= 1 then BaseOf(log) else Apply(Replay(log[1..]), log[0])
  }

  function Uncached(log: seq<Entry>): seq<Entry>
    requires log != []
  {
    [log[0].(cached := None)] + log[1..]
  }

  /** The root is a base without deltas; every other base was computed from what the version saw before it had one. */
  ghost predicate Honest(log: seq<Entry>) {
    && log != []
    && if |log| == 1 then log[0].cached.Some? && log[0].inserts == [] && log[0].removes == []
       else Honest(log[1..]) && (log[0].cached.Some? ==> log[0].cached.value == Visible(Uncached(log)))
  }

  /** No version inserts an id that was removed since the base it logs against. */
  ghost predicate NeverRevives(log: seq<Entry>) {
    |log| <= 1 || (NeverRevives(log[1..]) && Ids(log[0].inserts) !! (Removed(log[1..]) + Ids(log[0].removes)))
  }

  /** The version and all before it show what replay gives. */
  ghost predicate AllExact(log: seq<Entry>) {
    |log| <= 1 || (AllExact(log[1..]) && Visible(log) == Replay(log))
  }

  lemma VisibleOfCached(log: seq<Entry>)
    requires log != [] && log[0].cached.Some?
    ensures Visible(log) == log[0].cached.value
  {
    AliveAll(log[0].cached.value, {});
  }

  /** One more entry: old points lose the removed ids, new ones all ids removed since the base. */
  lemma VisibleStep(log: seq<Entry>)
    requires log != [] && log[0].cached.None?
    ensures Visible(log) == Alive(Visible(log[1..]), Ids(log[0].removes))
                            + Alive(log[0].inserts, Removed(log[1..]) + Ids(log[0].removes))
  {
    var rest, e := log[1..], log[0];
    var dead, more := Removed(rest), Ids(e.removes);
    hide Alive, Ids;
    AliveConcat(Inserted(rest), e.inserts, dead + more);
    AliveTwice(BaseOf(rest), dead, more);
    AliveTwice(Inserted(rest), dead, more);
    AliveConcat(Alive(BaseOf(rest), dead), Alive(Inserted(rest), dead), more);
  }

  /** A step shows what replay gives exactly when it revives no id. */
  lemma StepExact(log: seq<Entry>)
    requires log != [] && log[0].cached.None?
    ensures Visible(log) == Apply(Visible(log[1..]), log[0])
            <==> Ids(log[0].inserts) !! (Removed(log[1..]) + Ids(log[0].removes))
  {
    var ins, dead := log[0].inserts, Removed(log[1..]) + Ids(log[0].removes);
    VisibleStep(log);
    AliveAll(ins, dead);
    hide Alive, Ids, Visible;
    var kept := Alive(Visible(log[1..]), Ids(log[0].removes));
    if kept + Alive(ins, dead) == kept + ins {
      assert (kept + Alive(ins, dead))[|kept|..] == Alive(ins, dead);
      assert (kept + ins)[|kept|..] == ins;
    }
  }

  lemma VisibleUncached(log: seq<Entry>)
    requires |log| > 1 && Honest(log)
    ensures Visible(log) == Visible(Uncached(log))
  {
    if log[0].cached.Some? {
      VisibleOfCached(log);
    } else {
      assert Uncached(log) == log;
    }
  }

  /** Every version shows what replay gives exactly when no insertion revives an id. */
  lemma {:induction false} ExactIffNeverRevives(log: seq<Entry>)
    requires Honest(log)
    ensures AllExact(log) <==> NeverRevives(log)
  {
    if |log| > 1 {
      ExactIffNeverRevives(log[1..]);
      VisibleUncached(log);
      StepExact(Uncached(log));
      hide Visible, Apply, Removed, Ids;
      assert Uncached(log)[1..] == log[1..];
      if AllExact(log[1..]) {
        ExactHere(log[1..]);
      }
    }
  }

  lemma ExactHere(log: seq<Entry>)
    requires AllExact(log) && Honest(log)
    ensures Visible(log) == Replay(log)
  {
    if |log| == 1 {
      VisibleOfCached(log);
    }
  }

  // ----- whatever the ratios -----

  ghost predicate EverRemoved(log: seq<Entry>, id: nat) {
    exists k :: 0 <= k < |log| && id in Ids(log[k].removes)
  }

  /** No id is inserted at or after a version that removes it. */
  ghost predicate NeverReinserts(log: seq<Entry>) {
    forall k, p :: 0 <= k < |log| && p in log[k].inserts ==> !EverRemoved(log[k..], p.id)
  }

  lemma {:induction false} UnnamedIsNotRemoved(log: seq<Entry>, id: nat)
    requires !EverRemoved(log, id)
    ensures id !in Removed(log)
  {
    if log != [] {
      UnnamedBefore(log, id);
      UnnamedIsNotRemoved(log[1..], id);
    }
  }

  lemma UnnamedBefore(log: seq<Entry>, id: nat)
    requires log != [] && !EverRemoved(log, id)
    ensures !EverRemoved(log[1..], id) && id !in Ids(log[0].removes)
  {
    forall k | 0 <= k < |log[1..]|
      ensures id !in Ids(log[1..][k].removes)
    {
      assert log[1..][k] == log[k + 1];
    }
  }

  /** Histories that never re-insert are shown exactly, wherever the bases were cached. */
  lemma {:induction false} ExactWithoutReinsertion(log: seq<Entry>)
    requires Honest(log) && NeverReinserts(log)
    ensures NeverRevives(log) && AllExact(log)
  {
    if |log| > 1 {
      forall k, p | 0 <= k < |log[1..]| && p in log[1..][k].inserts
        ensures !EverRemoved(log[1..][k..], p.id)
      {
        assert p in log[k + 1].inserts && log[1..][k..] == log[k + 1..];
      }
      ExactWithoutReinsertion(log[1..]);
      forall p | p in log[0].inserts
        ensures p.id !in Removed(log[1..]) && p.id !in Ids(log[0].removes)
      {
        assert log[0..] == log;
        UnnamedBefore(log, p.id);
        UnnamedIsNotRemoved(log[1..], p.id);
      }
    }
    ExactIffNeverRevives(log);
  }

  /** The same root and the same deltas, cached differently. */
  ghost predicate SameHistory(a: seq<Entry>, b: seq<Entry>) {
    && |a| == |b| && a != []
    && (forall k :: 0 <= k < |a| ==> a[k].inserts == b[k].inserts && a[k].removes == b[k].removes)
    && a[|a| - 1] == b[|b| - 1]
  }

  lemma {:induction false} SameReplay(a: seq<Entry>, b: seq<Entry>)
    requires SameHistory(a, b)
    ensures Replay(a) == Replay(b)
    decreases |a|
  {
    if |a| > 1 {
      SameReplay(a[1..], b[1..]);
    }
  }

  /** Two runs of one history that never re-inserts show the same, whatever ratios decided their compactions. */
  lemma RatiosDoNotMatter(a: seq<Entry>, b: seq<Entry>)
    requires Honest(a) && Honest(b) && SameHistory(a, b) && NeverReinserts(a)
    ensures Visible(a) == Visible(b) == Replay(a)
  {
    forall k, p | 0 <= k < |b| && p in b[k].inserts
      ensures !EverRemoved(b[k..], p.id)
    {
      assert p in a[k].inserts;
      assert !EverRemoved(a[k..], p.id);
      forall m | 0 <= m < |b[k..]|
        ensures p.id !in Ids(b[k..][m].removes)
      {
        assert a[k..][m].removes == b[k..][m].removes;
      }
    }
    ExactWithoutReinsertion(a);
    ExactWithoutReinsertion(b);
    ExactHere(a);
    ExactHere(b);
    SameReplay(a, b);
  }

  /** A base holding p, then p removed, then p put back. */
  function PutBack(p: Point): seq<Entry> {
    [Entry([p], [], None)] + Taken(p)
  }

  function Taken(p: Point): seq<Entry> {
    [Entry([], [p], None), Entry([], [], Some([p]))]
  }

  lemma TakenIsGone(p: Point)
    ensures Honest(Taken(p)) && Visible(Taken(p)) == [] && Replay(Taken(p)) == [] && Removed(Taken(p)) == {p.id}
  {
    var log := Taken(p);
    assert log[1..] == [Entry([], [], Some([p]))];
    VisibleOfCached(log[1..]);
    VisibleStep(log);
    assert Ids([p]) == {p.id} && Alive([p], {p.id}) == [];
  }

  /** If the removal is still in the log when the point is put back, the point is not shown. */
  lemma ReinsertionIsLost(p: Point)
    ensures Honest(PutBack(p)) && Visible(PutBack(p)) == [] && Replay(PutBack(p)) == [p]
  {
    var log := PutBack(p);
    TakenIsGone(p);
    assert log[1..] == Taken(p);
    VisibleStep(log);
    assert Ids([]) == {} && {p.id} + {} == {p.id} && Alive([], {}) == [] && Alive([p], {p.id}) == [];
  }

  /** If a compaction came between, it is. */
  function PutBackLater(p: Point): seq<Entry> {
    [Entry([p], [], None)] + TakenAway(p)
  }

  function TakenAway(p: Point): seq<Entry> {
    [Entry([], [p], Some([])), Entry([], [], Some([p]))]
  }

  lemma ReinsertionIsShown(p: Point)
    ensures Visible(PutBackLater(p)) == [p]
  {
    var log := PutBackLater(p);
    assert log[1..] == TakenAway(p);
    VisibleOfCached(TakenAway(p));
    VisibleStep(log);
    assert Removed(TakenAway(p)) == {} && Ids([]) == {} && Removed(TakenAway(p)) + Ids([]) == {};
    AliveAll([], {});
    AliveAll([p], {});
  }

  lemma LostStays(log: seq<Entry>, p: Point)
    requires Honest(log) && 1 < |log| && p !in Visible(log[1..]) && p !in log[0].inserts
    ensures p !in Visible(log)
  {
    VisibleUncached(log);
    VisibleStep(Uncached(log));
    assert Uncached(log)[1..] == log[1..];
    hide Visible, Honest, Ids, Removed, Filter;
    AliveAll(Visible(log[1..]), Ids(log[0].removes));
    AliveAll(log[0].inserts, Removed(log[1..]) + Ids(log[0].removes));
  }

  lemma ReplayKeeps(log: seq<Entry>, p: Point)
    requires 0 < |log| && p in Replay(log[1..]) && p.id !in Ids(log[0].removes)
    ensures p in Replay(log)
  {
    hide Ids, Filter;
    AliveAll(Replay(log[1..]), Ids(log[0].removes));
  }

  ghost predicate NotInserted(log: seq<Entry>, k: nat, p: Point)
    requires k <= |log|
  {
    forall i :: 0 <= i < k ==> p !in log[i].inserts
  }

  ghost predicate NotRemoved(log: seq<Entry>, k: nat, id: nat)
    requires k <= |log|
  {
    forall i :: 0 <= i < k ==> id !in Ids(log[i].removes)
  }

  lemma NotInsertedBefore(log: seq<Entry>, k: nat, p: Point)
    requires 0 < k <= |log| && NotInserted(log, k, p)
    ensures p !in log[0].inserts && NotInserted(log[1..], k - 1, p)
  {
  }

  lemma NotRemovedBefore(log: seq<Entry>, k: nat, id: nat)
    requires 0 < k <= |log| && NotRemoved(log, k, id)
    ensures id !in Ids(log[0].removes) && NotRemoved(log[1..], k - 1, id)
  {
    hide Ids;
  }

  lemma SuffixOfRest(log: seq<Entry>, k: nat)
    requires 0 < k < |log|
    ensures log[1..][k - 1..] == log[k..]
  {
  }

  /**
   * A loss is for good: whatever is compacted in later versions, a point that
   * a version does not show comes back only by inserting it.
   */
  lemma {:induction false} LossIsPermanent(log: seq<Entry>, k: nat, p: Point)
    requires Honest(log) && k < |log| && p !in Visible(log[k..]) && NotInserted(log, k, p)
    ensures p !in Visible(log)
    decreases k
  {
    if k == 0 {
      assert log[0..] == log;
    } else {
      var rest := log[1..];
      assert Honest(rest);
      hide Visible, Honest, NotInserted;
      SuffixOfRest(log, k);
      NotInsertedBefore(log, k, p);
      LossIsPermanent(rest, k - 1, p);
      LostStays(log, p);
    }
  }

  /** Replay meanwhile keeps the point, unless its id is removed. */
  lemma {:induction false} ReplayIsPermanent(log: seq<Entry>, k: nat, p: Point)
    requires k < |log| && p in Replay(log[k..]) && NotRemoved(log, k, p.id)
    ensures p in Replay(log)
    decreases k
  {
    if k == 0 {
      assert log[0..] == log;
    } else {
      var rest := log[1..];
      hide Replay, NotRemoved, Ids;
      SuffixOfRest(log, k);
      NotRemovedBefore(log, k, p.id);
      ReplayIsPermanent(rest, k - 1, p);
      ReplayKeeps(log, p);
    }
  }
}
