/**
 * What tracing a branch of the version log finds: for every touched id, by how
 * much its presence changed between the branch point and the version.
 */
module LogDiffs {
  import opened Points
  import opened Logs

  ghost predicate UniqueIds(s: set<Point>) { forall p, q :: p in s && q in s && p.id == q.id ==> p == q }

  function PointsOf(s: seq<Point>): set<Point> { set p | p in s }

  /** Every point a version's line ever held. */
  function Ever(log: seq<Entry>): set<Point> {
    if |log| <= 1 then PointsOf(BaseOf(log)) else Ever(log[1..]) + PointsOf(log[0].inserts)
  }

  function IdsIn(s: set<Point>): set<nat> { set p | p in s :: p.id }

  /** The points a version holds. */
  function Live(log: seq<Entry>): set<Point> { PointsOf(Replay(log)) }

  /** A history that removes only points it holds, and inserts only ids it never held. */
  ghost predicate Proper(log: seq<Entry>) {
    && Honest(log) && UniqueIds(Ever(log))
    && (|log| > 1 ==> Proper(log[1..]) && PointsOf(log[0].removes) <= Live(log[1..])
                      && IdsIn(PointsOf(log[0].inserts)) !! IdsIn(Ever(log[1..])))
  }

  lemma LiveStep(log: seq<Entry>)
    requires |log| > 1
    ensures forall p :: p in Live(log) <==>
              p in log[0].inserts || (p in Live(log[1..]) && p.id !in Ids(log[0].removes))
  {
    AliveAll(Replay(log[1..]), Ids(log[0].removes));
  }

  lemma {:induction false} LiveWasEver(log: seq<Entry>)
    ensures Live(log) <= Ever(log)
  {
    if |log| > 1 {
      LiveWasEver(log[1..]);
      LiveStep(log);
    }
  }

  lemma {:induction false} EarlierEver(log: seq<Entry>, k: nat)
    requires k < |log|
    ensures Ever(log[k..]) <= Ever(log)
  {
    if k > 0 {
      EarlierEver(log[1..], k - 1);
      assert log[1..][k - 1..] == log[k..];
    } else {
      assert log[0..] == log;
    }
  }

  lemma {:induction false} ProperFrom(log: seq<Entry>, k: nat)
    requires Proper(log) && k < |log|
    ensures Proper(log[k..])
  {
    if k > 0 {
      ProperFrom(log[1..], k - 1);
      assert log[1..][k - 1..] == log[k..];
    } else {
      assert log[0..] == log;
    }
  }

  /** Proper histories never revive an id, so their versions show what replay gives. */
  lemma {:induction false} ProperIsExact(log: seq<Entry>)
    requires Proper(log)
    ensures NeverRevives(log) && AllExact(log)
    ensures Removed(log) <= IdsIn(Ever(log))
    ensures PointsOf(Visible(log)) == Live(log)
  {
    if |log| > 1 {
      ProperIsExact(log[1..]);
      LiveWasEver(log[1..]);
      assert Ids(log[0].inserts) == IdsIn(PointsOf(log[0].inserts));
      forall id | id in Ids(log[0].removes)
        ensures id in IdsIn(Ever(log[1..]))
      {
        var p :| p in log[0].removes && p.id == id;
        assert p in Ever(log[1..]);
      }
    }
    ExactIffNeverRevives(log);
    ExactHere(log);
  }

  // ----- the events of a branch -----

  function Events(e: Entry): set<nat> { Ids(e.removes) + Ids(e.inserts) }

  /** The ids the k newest versions mention. */
  function Touched(log: seq<Entry>, k: nat): set<nat>
    requires k <= |log|
  {
    if k == 0 then {} else Touched(log, k - 1) + Events(log[k - 1])
  }

  predicate IsLive(log: seq<Entry>, id: nat) { id in IdsIn(Live(log)) }

  function Bit01(b: bool): int { if b then 1 else 0 }

  /** The change in an id's presence over the k newest versions. */
  function Net(log: seq<Entry>, k: nat, id: nat): int
    requires k <= |log|
  {
    Bit01(IsLive(log, id)) - Bit01(IsLive(log[k..], id))
  }

  /** How one step changes an id's presence. */
  lemma IdStep(log: seq<Entry>, id: nat)
    requires |log| > 1 && Proper(log)
    ensures id in Ids(log[0].inserts) ==> IsLive(log, id) && !IsLive(log[1..], id) && id !in Ids(log[0].removes)
    ensures id in Ids(log[0].removes) ==> IsLive(log[1..], id) && !IsLive(log, id)
    ensures id !in Events(log[0]) ==> (IsLive(log, id) <==> IsLive(log[1..], id))
    ensures IsLive(log, id) && id in IdsIn(Ever(log[1..])) ==> IsLive(log[1..], id)
    ensures id in Ids(log[0].inserts) ==> id !in IdsIn(Ever(log[1..]))
  {
    var ins, rem, before := log[0].inserts, log[0].removes, Live(log[1..]);
    LiveStep(log);
    LiveWasEver(log[1..]);
    assert Ids(ins) == IdsIn(PointsOf(ins)) && Ids(rem) == IdsIn(PointsOf(rem));
    hide Live, Ever, Proper;
    if id in Ids(ins) {
      var p :| p in ins && p.id == id;
      assert p in Live(log);
    }
    if id in Ids(rem) {
      var p :| p in rem && p.id == id;
      assert p in before;
    }
    if IsLive(log[1..], id) && id !in Events(log[0]) {
      var p :| p in before && p.id == id;
      assert p in Live(log);
    }
  }

  /** An id that is gone stays gone. */
  lemma {:induction false} LiveOnce(log: seq<Entry>, k: nat, id: nat)
    requires Proper(log) && k < |log| && IsLive(log, id) && id in IdsIn(Ever(log[k..]))
    ensures IsLive(log[k..], id)
  {
    if k == 0 {
      assert log[0..] == log;
    } else {
      assert log[1..][k - 1..] == log[k..];
      EarlierEver(log[1..], k - 1);
      IdStep(log, id);
      LiveOnce(log[1..], k - 1, id);
    }
  }

  lemma {:induction false} TouchedTail(log: seq<Entry>, k: nat)
    requires 0 < k <= |log|
    ensures Touched(log, k) == Events(log[0]) + Touched(log[1..], k - 1)
  {
    if k > 1 {
      TouchedTail(log, k - 1);
    }
  }

  lemma NothingTouched(log: seq<Entry>, k: nat)
    requires k <= |log| && Touched(log, k) != {}
    ensures k > 0
  {
  }

  lemma IdKnownEarlier(log: seq<Entry>, k: nat, id: nat)
    requires k < |log| && id in IdsIn(Ever(log[k..]))
    ensures id in IdsIn(Ever(log))
  {
    hide Ever;
    EarlierEver(log, k);
  }

  /** An old id the branch mentions was there at its start and is gone at its end. */
  lemma {:induction false} TouchedIsGone(log: seq<Entry>, k: nat, id: nat)
    requires Proper(log) && k < |log| && id in Touched(log, k) && id in IdsIn(Ever(log[k..]))
    ensures IsLive(log[k..], id) && !IsLive(log, id)
  {
    hide IsLive, Proper, Ever, Events, IdsIn;
    NothingTouched(log, k);
    hide Touched;
    TouchedTail(log, k);
    BranchTail(log, k, id);
    if id in Events(log[0]) {
      MentionedIsGone(log, k, id);
    } else {
      TouchedIsGone(log[1..], k - 1, id);
    }
  }

  lemma BranchTail(log: seq<Entry>, k: nat, id: nat)
    requires Proper(log) && 0 < k < |log| && id in IdsIn(Ever(log[k..]))
    ensures Proper(log[1..]) && log[1..][k - 1..] == log[k..] && id in IdsIn(Ever(log[1..]))
    ensures id !in Events(log[0]) ==> (IsLive(log, id) <==> IsLive(log[1..], id))
  {
    hide IsLive, Ever, Events, IdsIn;
    IdKnownEarlier(log[1..], k - 1, id);
    IdStep(log, id);
  }

  lemma MentionedIsGone(log: seq<Entry>, k: nat, id: nat)
    requires Proper(log) && 0 < k < |log| && id in Events(log[0]) && id in IdsIn(Ever(log[k..]))
    ensures IsLive(log[k..], id) && !IsLive(log, id)
  {
    hide IsLive, Proper, Ever, Events, IdsIn;
    BranchTail(log, k, id);
    IdStep(log, id);
    InEvents(log[0], id);
    LiveOnce(log[1..], k - 1, id);
  }

  lemma InEvents(e: Entry, id: nat)
    ensures id in Events(e) <==> id in Ids(e.removes) || id in Ids(e.inserts)
  {
  }

  // ----- the trace -----

  /** Newest version first; in each the removals before the insertions. */
  function AfterEntry(state: map<nat, int>, e: Entry): map<nat, int> {
    AfterInserts(AfterRemoves(state, e.removes), e.inserts)
  }

  function AfterRemoves(state: map<nat, int>, s: seq<Point>): map<nat, int> {
    map id | id in state.Keys + Ids(s) :: if id in state then state[id] else -1
  }

  function AfterInserts(state: map<nat, int>, s: seq<Point>): map<nat, int> {
    map id | id in state.Keys + Ids(s) ::
      if id !in state then 1 else if id in Ids(s) && state[id] == -1 then 0 else state[id]
  }

  function Traced(log: seq<Entry>, k: nat): map<nat, int>
    requires k <= |log|
  {
    if k == 0 then map[] else AfterEntry(Traced(log, k - 1), log[k - 1])
  }

  lemma {:induction false} TracedKeys(log: seq<Entry>, k: nat)
    requires k <= |log|
    ensures Traced(log, k).Keys == Touched(log, k)
  {
    if k > 0 {
      TracedKeys(log, k - 1);
    }
  }

  function ValueAt(state: map<nat, int>, id: nat): int { if id in state then state[id] else 0 }

  lemma ValueAfter(state: map<nat, int>, e: Entry, id: nat)
    ensures ValueAt(AfterEntry(state, e), id) ==
            if id in state then (if id in Ids(e.inserts) && state[id] == -1 then 0 else state[id])
            else if id in Ids(e.inserts) then (if id in Ids(e.removes) then 0 else 1)
            else if id in Ids(e.removes) then -1 else 0
  {
    hide Ids;
  }

  /** The trace of a branch is the net change over it. */
  lemma {:induction false} TracedIsNet(log: seq<Entry>, k: nat, id: nat)
    requires Proper(log) && k < |log|
    ensures ValueAt(Traced(log, k), id) == Net(log, k, id)
  {
    hide Proper, IsLive, Net, Traced, ValueAt, Ids, Touched;
    if k == 0 {
      NothingTraced(log, id);
    } else {
      TracedIsNet(log, k - 1, id);
      NetStep(log, k, id);
      ValueStep(log, k, id);
    }
  }

  lemma NothingTraced(log: seq<Entry>, id: nat)
    ensures ValueAt(Traced(log, 0), id) == Net(log, 0, id) == 0
  {
    assert log[0..] == log;
  }

  lemma TracedOne(log: seq<Entry>, k: nat)
    requires 0 < k <= |log|
    ensures Traced(log, k) == AfterEntry(Traced(log, k - 1), log[k - 1])
  {
  }

  /** How one more version changes the trace. */
  lemma ValueStep(log: seq<Entry>, k: nat, id: nat)
    requires 0 < k <= |log|
    ensures var e, before := log[k - 1], ValueAt(Traced(log, k - 1), id);
            ValueAt(Traced(log, k), id) ==
            if id in Touched(log, k - 1) then (if id in Ids(e.inserts) && before == -1 then 0 else before)
            else if id in Ids(e.inserts) then (if id in Ids(e.removes) then 0 else 1)
            else if id in Ids(e.removes) then -1 else 0
    ensures id !in Touched(log, k - 1) ==> ValueAt(Traced(log, k - 1), id) == 0
  {
    TracedKeys(log, k - 1);
    hide Ids, Touched, AfterEntry, Traced;
    TracedOne(log, k);
    ValueAfter(Traced(log, k - 1), log[k - 1], id);
  }

  /** How one more version changes the net. */
  lemma NetStep(log: seq<Entry>, k: nat, id: nat)
    requires Proper(log) && 0 < k < |log|
    ensures var e, before := log[k - 1], Net(log, k - 1, id);
            Net(log, k, id) ==
            if id in Touched(log, k - 1) then (if id in Ids(e.inserts) && before == -1 then 0 else before)
            else before + (if id in Ids(e.inserts) then 1 else if id in Ids(e.removes) then -1 else 0)
    ensures id in Ids(log[k - 1].inserts) ==> id !in Ids(log[k - 1].removes)
  {
    var tail := log[k - 1..];
    assert tail[1..] == log[k..] && tail[0] == log[k - 1];
    hide Proper, IsLive, Touched, Events, Ids, IdsIn, Ever;
    ProperFrom(log, k - 1);
    IdStep(tail, id);
    InEvents(tail[0], id);
    OldIds(log, k, id);
  }

  /** What an id known before the last traced version can have done. */
  lemma OldIds(log: seq<Entry>, k: nat, id: nat)
    requires Proper(log) && 0 < k < |log|
    ensures IsLive(log[k - 1..], id) && id in Touched(log, k - 1) ==> !IsLive(log, id)
    ensures IsLive(log[k..], id) && id in Touched(log, k - 1) ==> IsLive(log[k - 1..], id)
  {
    var tail := log[k - 1..];
    assert tail[1..] == log[k..];
    EarlierEver(tail, 1);
    hide Proper, IsLive, Touched, Ever;
    if id in Touched(log, k - 1) {
      if IsLive(tail, id) {
        LiveIsEver(tail, id);
        TouchedIsGone(log, k - 1, id);
      }
      if IsLive(log[k..], id) {
        LiveIsEver(log[k..], id);
        TouchedIsGone(log, k - 1, id);
      }
    }
  }

  lemma LiveIsEver(log: seq<Entry>, id: nat)
    requires IsLive(log, id)
    ensures id in IdsIn(Ever(log))
  {
    LiveWasEver(log);
    var p :| p in Live(log) && p.id == id;
    assert p in Ever(log);
  }

  // ----- the points the trace remembers -----

  function Noted(values: map<nat, Point>, s: seq<Point>): map<nat, Point> {
    if s == [] then values
    else Noted(values, s[..|s| - 1])[s[|s| - 1].id := s[|s| - 1]]
  }

  function NotedAlong(values: map<nat, Point>, log: seq<Entry>, k: nat): map<nat, Point>
    requires k <= |log|
  {
    if k == 0 then values
    else Noted(Noted(NotedAlong(values, log, k - 1), log[k - 1].removes), log[k - 1].inserts)
  }

  ghost predicate NotesFrom(values: map<nat, Point>, known: set<Point>) {
    forall id :: id in values ==> values[id] in known && values[id].id == id
  }

  /** Of several points with one id the last is noted. */
  lemma {:induction false} LastIsNoted(values: map<nat, Point>, s: seq<Point>, i: nat)
    requires i < |s| && forall j :: i < j < |s| ==> s[j].id != s[i].id
    ensures s[i].id in Noted(values, s) && Noted(values, s)[s[i].id] == s[i]
  {
    if i + 1 < |s| {
      LastIsNoted(values, s[..|s| - 1], i);
    }
  }

  lemma {:induction false} OthersStay(values: map<nat, Point>, s: seq<Point>, id: nat)
    requires forall p :: p in s ==> p.id != id
    ensures id in Noted(values, s) <==> id in values
    ensures id in values ==> Noted(values, s)[id] == values[id]
  {
    if s != [] {
      assert s[|s| - 1] in s;
      OthersStay(values, s[..|s| - 1], id);
    }
  }

  lemma {:induction false} NotedPoints(values: map<nat, Point>, s: seq<Point>, known: set<Point>)
    requires NotesFrom(values, known) && PointsOf(s) <= known
    ensures NotesFrom(Noted(values, s), known)
    ensures Noted(values, s).Keys == values.Keys + Ids(s)
  {
    if s != [] {
      var front, last := s[..|s| - 1], s[|s| - 1];
      assert s == front + [last];
      assert Ids(s) == Ids(front) + {last.id} && last in PointsOf(s);
      NotedPoints(values, front, known);
    }
  }

  lemma {:induction false} NotedBranch(values: map<nat, Point>, log: seq<Entry>, k: nat, known: set<Point>)
    requires Proper(log) && k < |log| && NotesFrom(values, known) && Ever(log) <= known
    ensures NotesFrom(NotedAlong(values, log, k), known)
    ensures NotedAlong(values, log, k).Keys == values.Keys + Touched(log, k)
  {
    hide Proper, Ever, Noted, Ids, Live, NotesFrom, Events;
    if k > 0 {
      NotedBranch(values, log, k - 1, known);
      EventsKnown(log, k);
      NotedEntry(NotedAlong(values, log, k - 1), log[k - 1], known);
    }
  }

  lemma NotedEntry(values: map<nat, Point>, e: Entry, known: set<Point>)
    requires NotesFrom(values, known) && PointsOf(e.removes) <= known && PointsOf(e.inserts) <= known
    ensures NotesFrom(Noted(Noted(values, e.removes), e.inserts), known)
    ensures Noted(Noted(values, e.removes), e.inserts).Keys == values.Keys + Events(e)
  {
    NotedPoints(values, e.removes, known);
    NotedPoints(Noted(values, e.removes), e.inserts, known);
    hide NotesFrom, Noted, Ids;
  }

  lemma EventsKnown(log: seq<Entry>, k: nat)
    requires Proper(log) && 0 < k < |log|
    ensures PointsOf(log[k - 1].removes) <= Ever(log) && PointsOf(log[k - 1].inserts) <= Ever(log)
  {
    var tail := log[k - 1..];
    assert tail[1..] == log[k..] && tail[0] == log[k - 1];
    ProperFrom(log, k - 1);
    EarlierEver(log, k - 1);
    LiveWasEver(log[k..]);
  }

  // ----- two branches -----

  /** Two versions of one tree, parting below a common version: i and j versions above it. */
  ghost predicate Parted(a: seq<Entry>, i: nat, b: seq<Entry>, j: nat) {
    && i < |a| && j < |b| && a[i..] == b[j..]
    && Proper(a) && Proper(b) && UniqueIds(Ever(a) + Ever(b))
  }

  function NetBetween(a: seq<Entry>, i: nat, b: seq<Entry>, j: nat, id: nat): int
    requires i <= |a| && j <= |b|
  {
    ValueAt(Traced(b, j), id) - ValueAt(Traced(a, i), id)
  }

  function NotesOf(a: seq<Entry>, i: nat, b: seq<Entry>, j: nat): map<nat, Point>
    requires i <= |a| && j <= |b|
  {
    NotedAlong(NotedAlong(map[], a, i), b, j)
  }

  lemma NotesAreKnown(a: seq<Entry>, i: nat, b: seq<Entry>, j: nat)
    requires Parted(a, i, b, j)
    ensures NotesFrom(NotesOf(a, i, b, j), Ever(a) + Ever(b))
    ensures NotesOf(a, i, b, j).Keys == Touched(a, i) + Touched(b, j)
  {
    hide Proper, Ever, Noted, NotedAlong;
    NotedBranch(map[], a, i, Ever(a) + Ever(b));
    NotedBranch(NotedAlong(map[], a, i), b, j, Ever(a) + Ever(b));
  }

  /** What the signs say of a noted point, and that a point only one version holds is noted. */
  lemma SignsAreExact(a: seq<Entry>, i: nat, b: seq<Entry>, j: nat, p: Point)
    requires Parted(a, i, b, j)
    ensures var notes, net := NotesOf(a, i, b, j), NetBetween(a, i, b, j, p.id);
            var noted := p.id in notes && notes[p.id] == p;
            && (noted && net > 0 <==> p in Live(b) && p !in Live(a))
            && (noted && net < 0 <==> p in Live(a) && p !in Live(b))
  {
    NotesAreKnown(a, i, b, j);
    TracedIsNet(a, i, p.id);
    TracedIsNet(b, j, p.id);
    TracedKeys(a, i);
    TracedKeys(b, j);
    HeldById(a, Ever(a) + Ever(b), p);
    HeldById(b, Ever(a) + Ever(b), p);
    hide Proper, Ever, IsLive, Live, Touched, Traced, NotesOf;
  }

  /** Under unique ids a version holds a point exactly when it holds its id. */
  lemma HeldById(log: seq<Entry>, known: set<Point>, p: Point)
    requires UniqueIds(known) && Ever(log) <= known
    ensures p in known ==> (p in Live(log) <==> IsLive(log, p.id))
    ensures p in Live(log) ==> p in known && IsLive(log, p.id)
    ensures IsLive(log, p.id) ==> exists q :: q in known && q.id == p.id && q in Live(log)
  {
    LiveWasEver(log);
  }
}
