/** What reconcile repairs in the middle of a run. */
module LiveTableRepair {
  import opened Outcomes
  import opened LiveTables
  import opened LiveTableRuns
  import opened LiveTableReconcile

  ghost function Ids(log: Log): set<nat> {
    set c <- log :: c.row.id
  }

  /** The alive rows of the DB after the first n changes. */
  ghost function Snapshot(log: Log, n: nat): Container
    requires n <= |log|
  {
    map id | id in Ids(log) && AliveAt(log, n, id).Some? :: AliveAt(log, n, id).value
  }

  lemma SnapshotEntry(log: Log, n: nat, id: nat)
    requires n <= |log|
    ensures Lookup(Snapshot(log, n), id) == AliveAt(log, n, id)
    ensures AliveAt(log, n, id).Some? ==> AliveAt(log, n, id).value.id == id && AliveAt(log, n, id).value.alive
  {
    hide VersionAt;
    VersionBetween(log, 0, n, id);
    assert VersionAt(log, 0, id).None? by { NoVersion(log, id); }
  }

  lemma NoVersion(log: Log, id: nat)
    ensures VersionAt(log, 0, id).None?
  {
  }

  lemma SnapshotIsDb(log: Log, n: nat)
    requires n <= |log| && IsUniqueAt(log, n)
    ensures IsDb(Snapshot(log, n))
  {
    hide AliveAt, Clash, Snapshot;
    var db := Snapshot(log, n);
    forall id <- db ensures AliveAt(log, n, id) == Lookup(db, id) && db[id].id == id && db[id].alive {
      SnapshotEntry(log, n, id);
    }
  }

  lemma IsSnapshotMeans(m: Container, log: Log, n: nat)
    requires n <= |log|
    ensures IsSnapshot(m, log, n) <==> m == Snapshot(log, n)
  {
    hide AliveAt, Snapshot;
    var db := Snapshot(log, n);
    forall id: nat ensures Lookup(db, id) == AliveAt(log, n, id) {
      SnapshotEntry(log, n, id);
    }
    if IsSnapshot(m, log, n) {
      SameEntries(m, db);
    }
  }

  lemma SameEntries(m: Container, other: Container)
    requires forall id: nat :: Lookup(m, id) == Lookup(other, id)
    ensures m == other
  {
    forall id: nat ensures id in m <==> id in other {
      assert Lookup(m, id) == Lookup(other, id);
    }
    forall id: nat | id in m ensures m[id] == other[id] {
      assert Lookup(m, id) == Lookup(other, id);
    }
  }

  lemma FullIsFetch(rows: seq<Row>, log: Log, n: nat)
    requires n <= |log| && IsFull(rows, log, n)
    ensures IsFetch(rows, Snapshot(log, n))
  {
    hide VersionAt, Snapshot;
    var db := Snapshot(log, n);
    forall id: nat ensures Lookup(db, id) == AliveAt(log, n, id) {
      SnapshotEntry(log, n, id);
    }
    forall r <- rows | r.alive ensures r.id in db && db[r.id] == r {
      assert AliveAt(log, n, r.id) == Some(r) == Lookup(db, r.id);
    }
    forall id <- db ensures db[id] in rows {
      assert Lookup(db, id) == AliveAt(log, n, id);
    }
  }

  /** In every run, a reconcile gets every entry right whose row needs no key that another entry holds; an entry it gets
      wrong is left as it was. */
  lemma ReconcileRepairsFreeRows(states: seq<State>, actions: seq<Action>, overlapSeconds: int, i: nat, id: nat)
    requires IsRun(states, actions, overlapSeconds) && i < |actions| && actions[i].Apply?
    requires states[i].phase.Fetched? && states[i].phase.kind.Reconcile?
    ensures states[i].phase.n <= |states[i].log| && states[i + 1].log == states[i].log
    ensures (forall q: nat :: !Holds(states[i].container, Snapshot(states[i].log, states[i].phase.n), q, id)) ==>
              Lookup(states[i + 1].container, id) == AliveAt(states[i].log, states[i].phase.n, id)
    ensures IsFetchedOrKept(states[i].container, states[i + 1].container, states[i].log, states[i].phase.n, id)
  {
    hide VersionAt, AliveAt, Snapshot, Reconciled, IsUniqueAt, Init, IsFull, IsFetch, IsDb, IsContainer, Clash;
    RunKeepsInv(states, actions, overlapSeconds, i);
    var s, s' := states[i], states[i + 1];
    var db := Snapshot(s.log, s.phase.n);
    ApplyEntry(s, s', overlapSeconds, id);
    SnapshotEntry(s.log, s.phase.n, id);
    SnapshotIsDb(s.log, s.phase.n);
    FullIsFetch(s.phase.rows, s.log, s.phase.n);
    ReconcileGoesTowards(s.container, db, s.phase.rows, None);
    if id in db && forall q: nat :: !Holds(s.container, db, q, id) {
      FreeRowIsMatched(s.container, db, s.phase.rows, None, id);
    }
  }

  // ----- stretches in which only reconcile runs and nobody writes -----

  predicate IsQuiet(a: Action) {
    a.Tick? || (a.Begin? && a.kind.Reconcile?) || a.Fetch? || a.Apply?
  }

  ghost predicate IsStretch(states: seq<State>, actions: seq<Action>, i: nat, j: nat) {
    && i <= j < |states| && |states| == |actions| + 1
    && states[i].phase.Idle?
    && forall k: nat :: i <= k < j ==> IsQuiet(actions[k])
  }

  /** What the calls of the stretch fetched. */
  ghost function Fetches(states: seq<State>, actions: seq<Action>, i: nat, j: nat): seq<seq<Row>>
    requires IsStretch(states, actions, i, j)
  {
    if i == j then []
    else
      var before := Fetches(states, actions, i, j - 1);
      if actions[j - 1].Apply? && states[j - 1].phase.Fetched? then before + [states[j - 1].phase.rows] else before
  }

  lemma {:induction false} OneMoreCall(m: Container, fetches: seq<seq<Row>>, rows: seq<Row>)
    ensures AfterCalls(m, fetches + [rows], None) == Reconciled(AfterCalls(m, fetches, None), rows, None)
    decreases |fetches|
  {
    hide Reconciled;
    if fetches == [] {
      assert (fetches + [rows])[1..] == [];
    } else {
      assert (fetches + [rows])[1..] == fetches[1..] + [rows];
      OneMoreCall(Reconciled(m, fetches[0], None), fetches[1..], rows);
    }
  }

  /** Within a stretch the log stands still and only reconcile holds the gate. */
  ghost predicate InStretch(s: State, log: Log) {
    s.log == log
    && (s.phase.ClockRead? ==> s.phase.kind.Reconcile?)
    && (s.phase.Fetched? ==> s.phase.kind.Reconcile? && s.phase.n == |log|)
    && !s.phase.OwnerWrote?
  }

  lemma QuietStep(s: State, a: Action, s': State, overlapSeconds: int, log: Log)
    requires Inv(s, overlapSeconds) && Next(s, a, s', overlapSeconds) && IsQuiet(a) && InStretch(s, log)
    ensures InStretch(s', log)
    ensures a.Apply? ==> s.phase.Fetched? && IsFull(s.phase.rows, log, |log|)
                         && s'.container == Reconciled(s.container, s.phase.rows, None)
    ensures !a.Apply? ==> s'.container == s.container
  {
    hide AliveAt, IsUniqueAt, IsFull, IsDelta, IsContainer, Reconciled, Lookup;
  }

  /** The container at the end of a stretch is what its calls make of the one at the start. */
  lemma {:induction false} StretchIsCalls(states: seq<State>, actions: seq<Action>, overlapSeconds: int, i: nat, j: nat)
    requires IsRun(states, actions, overlapSeconds) && IsStretch(states, actions, i, j)
    ensures InStretch(states[j], states[i].log)
    ensures states[j].container == AfterCalls(states[i].container, Fetches(states, actions, i, j), None)
    ensures forall f <- Fetches(states, actions, i, j) :: IsFull(f, states[i].log, |states[i].log|)
    decreases j
  {
    hide Init, Next, Inv, IsFull, AfterCalls, IsQuiet, InStretch;
    if i == j {
      StretchStarts(states[i]);
    } else {
      StretchIsCalls(states, actions, overlapSeconds, i, j - 1);
      RunKeepsInv(states, actions, overlapSeconds, j - 1);
      var s := states[j - 1];
      QuietStep(s, actions[j - 1], states[j], overlapSeconds, states[i].log);
      if actions[j - 1].Apply? {
        OneMoreCall(states[i].container, Fetches(states, actions, i, j - 1), s.phase.rows);
      }
    }
  }

  lemma StretchStarts(s: State)
    requires s.phase.Idle?
    ensures InStretch(s, s.log) && s.container == AfterCalls(s.container, [], None)
  {
  }

  /**
   * In every run, as soon as nobody writes for long enough to reconcile once more than rows are pending, the container
   * is the DB if and only if the pending key moves contained no cycle.
   */
  lemma StretchRepairsWithoutCycles(states: seq<State>, actions: seq<Action>, overlapSeconds: int, i: nat, j: nat)
    requires IsRun(states, actions, overlapSeconds) && IsStretch(states, actions, i, j)
    requires |Fetches(states, actions, i, j)|
             >= |Pending(states[i].container, Snapshot(states[i].log, |states[i].log|))| + 1
    ensures states[j].log == states[i].log
    ensures IsSnapshot(states[j].container, states[j].log, |states[j].log|) <==>
            forall c: seq<nat> :: !IsCycle(states[i].container, Snapshot(states[i].log, |states[i].log|), c)
  {
    hide Init, Next, IsFull, AfterCalls, Fetches, IsUniqueAt, Snapshot, IsSnapshot, IsCycle, Pending, IsDb, IsFetch;
    hide EntriesAreVersions, VisibleFrom, PhaseInv, IsQuiet;
    var log := states[i].log;
    var db := Snapshot(log, |log|);
    var fetches := Fetches(states, actions, i, j);
    StretchIsCalls(states, actions, overlapSeconds, i, j);
    RunKeepsInv(states, actions, overlapSeconds, i);
    SnapshotIsDb(log, |log|);
    forall f <- fetches ensures IsFetch(f, db) {
      FullIsFetch(f, log, |log|);
    }
    ReconcileConvergesWithoutCycles(states[i].container, db, fetches, None);
    IsSnapshotMeans(states[j].container, log, |log|);
  }
}
