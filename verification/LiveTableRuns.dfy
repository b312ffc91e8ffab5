/** Runs of a live table beside a DB others write to. */
module LiveTableRuns {
  import opened Outcomes
  import opened LiveTables

  /** A committed change: the new version of a row, its updatedAt, and when the commit made it visible. */
  datatype Change = Change(row: Row, stamp: int, visible: int)

  type Log = seq<Change>

  datatype Kind = LoadAll | Refresh | Reconcile

  /** Who holds the gate, and how far it got. n is the number of changes the SELECT saw. */
  datatype Phase =
    | Idle
    | ClockRead(kind: Kind, nextTs: int)
    | Fetched(kind: Kind, nextTs: int, rows: seq<Row>, n: nat)
    | OwnerWrote(k: nat)

  /** cursor counts the changes seen by the SELECT of lastTs; version(id) those the entry of id reflects. */
  datatype State = State(log: Log, now: int, container: Container, lastTs: Option<int>, phase: Phase,
                         cursor: nat, version: nat -> nat)

  datatype Action =
    | Tick(to: int)
    | Commit(row: Row, stamp: int)
    | Begin(kind: Kind)
    | Fetch(rows: seq<Row>)
    | Apply
    | OwnerCommit(row: Row, stamp: int)
    | OwnerApply

  /** The last version of a row after the first n changes. */
  ghost function VersionAt(log: Log, n: nat, id: nat): (v: Option<Change>)
    requires n <= |log|
    ensures v.Some? ==> v.value.row.id == id
  {
    if n == 0 then None
    else if log[n - 1].row.id == id then Some(log[n - 1])
    else VersionAt(log, n - 1, id)
  }

  ghost function AliveAt(log: Log, n: nat, id: nat): Option<Row>
    requires n <= |log|
  {
    var v := VersionAt(log, n, id);
    if v.Some? && v.value.row.alive then Some(v.value.row) else None
  }

  ghost function Lookup(m: Container, id: nat): Option<Row> {
    if id in m then Some(m[id]) else None
  }

  /** m holds exactly the alive rows of the snapshot made by the first n changes. */
  ghost predicate IsSnapshot(m: Container, log: Log, n: nat)
    requires n <= |log|
  {
    forall id: nat :: Lookup(m, id) == AliveAt(log, n, id)
  }

  ghost predicate AliveInLog(log: Log, row: Row) {
    row.alive && exists i: nat :: i < |log| && log[i].row == row
  }

  /** The DB keeps its unique indexes in the snapshot made by the first n changes. */
  ghost predicate IsUniqueAt(log: Log, n: nat)
    requires n <= |log|
  {
    forall a: nat, b: nat :: AliveAt(log, n, a).Some? && AliveAt(log, n, b).Some? ==>
      !Clash(AliveAt(log, n, a).value, AliveAt(log, n, b).value)
  }

  /** Stronger: no key is ever used by two rows, alive together or not. */
  ghost predicate NeverClashes(log: Log) {
    forall r: Row, s: Row :: AliveInLog(log, r) && AliveInLog(log, s) ==> !Clash(r, s)
  }

  /** What the delta query returns: the current versions stamped at or after the cutoff. */
  ghost predicate IsDelta(rows: seq<Row>, log: Log, n: nat, cutoff: int)
    requires n <= |log|
  {
    && DistinctIds(rows)
    && (forall r <- rows :: var v := VersionAt(log, n, r.id); v.Some? && v.value.row == r)
    && (forall id: nat :: var v := VersionAt(log, n, id); v.Some? && v.value.stamp >= cutoff ==> v.value.row in rows)
  }

  /** What the full query returns: current versions, all the alive ones and perhaps others. */
  ghost predicate IsFull(rows: seq<Row>, log: Log, n: nat)
    requires n <= |log|
  {
    && DistinctIds(rows)
    && (forall r <- rows :: var v := VersionAt(log, n, r.id); v.Some? && v.value.row == r)
    && (forall id: nat :: AliveAt(log, n, id).Some? ==> AliveAt(log, n, id).value in rows)
  }

  ghost predicate IsCommit(s: State, s': State, row: Row, stamp: int, overlapSeconds: int) {
    && stamp <= s.now <= stamp + 1000 * overlapSeconds
    && s'.log == s.log + [Change(row, stamp, s.now)]
    && IsUniqueAt(s'.log, |s'.log|)
  }

  function Applied(m: Container, kind: Kind, rows: seq<Row>): Container {
    match kind
    case LoadAll => AllUpserted(map[], rows, None)
    case Refresh => DeltaApplied(m, rows, None)
    case Reconcile => Reconciled(m, rows, None)
  }

  function WithOwnerRow(m: Container, row: Row): Container {
    if row.alive then Upserted(m, row, None) else Erased(m, row.id)
  }

  /** The version of an entry after the row of snapshot n was offered: an entry that refused it keeps its own. */
  ghost function VersionAfter(s: State, m: Container, n: nat, id: nat): nat
    requires n <= |s.log|
  {
    if Lookup(m, id) == AliveAt(s.log, n, id) then n else s.version(id)
  }

  ghost predicate Next(s: State, a: Action, s': State, overlapSeconds: int) {
    match a
    case Tick(to) =>
      to >= s.now && s' == s.(now := to)
    case Commit(row, stamp) =>
      IsCommit(s, s', row, stamp, overlapSeconds) && s' == s.(log := s'.log)
    case Begin(kind) =>
      s.phase.Idle? && (kind.Refresh? ==> s.lastTs.Some?) && s' == s.(phase := ClockRead(kind, s.now))
    case Fetch(rows) =>
      && s.phase.ClockRead?
      && (if s.phase.kind.Refresh?
          then s.lastTs.Some? && IsDelta(rows, s.log, |s.log|, Cutoff(s.lastTs.value, overlapSeconds))
          else IsFull(rows, s.log, |s.log|))
      && s' == s.(phase := Fetched(s.phase.kind, s.phase.nextTs, rows, |s.log|))
    case Apply =>
      && s.phase.Fetched? && s.phase.n <= |s.log|
      && s'.log == s.log && s'.now == s.now && s'.phase == Idle
      && s'.container == Applied(s.container, s.phase.kind, s.phase.rows)
      && (forall id: nat :: s'.version(id) == VersionAfter(s, s'.container, s.phase.n, id))
      && (if s.phase.kind.Reconcile? then s'.lastTs == s.lastTs && s'.cursor == s.cursor
          else s'.lastTs == Some(s.phase.nextTs) && s'.cursor == s.phase.n)
    case OwnerCommit(row, stamp) =>
      && s.phase.Idle?
      && IsCommit(s, s', row, stamp, overlapSeconds)
      && s' == s.(log := s'.log, phase := OwnerWrote(|s.log|))
    case OwnerApply =>
      && s.phase.OwnerWrote? && s.phase.k < |s.log|
      && var row := s.log[s.phase.k].row;
      && s'.log == s.log && s'.now == s.now && s'.phase == Idle && s'.lastTs == s.lastTs && s'.cursor == s.cursor
      && s'.container == WithOwnerRow(s.container, row)
      && (forall id: nat :: s'.version(id) ==
            if id == row.id then VersionAfter(s, s'.container, s.phase.k + 1, id) else s.version(id))
  }

  /** Before the first load: any table contents, nothing in memory. */
  ghost predicate Init(s: State, overlapSeconds: int) {
    && IsLog(s.log, s.now, overlapSeconds)
    && s.container == map[] && s.lastTs == None && s.phase == Idle && s.cursor == 0
    && forall id: nat :: s.version(id) == 0
  }

  ghost predicate IsLog(log: Log, now: int, overlapSeconds: int) {
    && (forall n: nat :: n <= |log| ==> IsUniqueAt(log, n))
    && forall i: nat :: i < |log| ==> log[i].visible <= now && log[i].visible <= log[i].stamp + 1000 * overlapSeconds
  }

  ghost predicate VisibleFrom(log: Log, n: nat, ts: int) {
    forall i: nat :: n <= i < |log| ==> log[i].visible >= ts
  }

  ghost predicate VersionsBelow(s: State, n: nat) {
    forall id: nat :: s.version(id) <= n
  }

  /** Every entry of the container is the version its counter says. */
  ghost predicate EntriesAreVersions(s: State) {
    && IsContainer(s.container)
    && forall id: nat :: s.version(id) <= |s.log| && Lookup(s.container, id) == AliveAt(s.log, s.version(id), id)
  }

  /** No entry is behind the cursor. */
  ghost predicate EntriesAreFresh(s: State) {
    forall id: nat :: s.cursor <= s.version(id)
  }

  ghost predicate PhaseInv(s: State, overlapSeconds: int) {
    match s.phase
    case Idle => true
    case ClockRead(kind, nextTs) => nextTs <= s.now
    case Fetched(kind, nextTs, rows, n) =>
      && s.cursor <= n <= |s.log| && nextTs <= s.now
      && VersionsBelow(s, n)
      && VisibleFrom(s.log, n, nextTs)
      && (if kind.Refresh?
          then s.lastTs.Some? && IsDelta(rows, s.log, n, Cutoff(s.lastTs.value, overlapSeconds))
          else IsFull(rows, s.log, n))
    case OwnerWrote(k) => k < |s.log| && VersionsBelow(s, k)
  }

  ghost predicate Inv(s: State, overlapSeconds: int) {
    && IsLog(s.log, s.now, overlapSeconds)
    && EntriesAreVersions(s)
    && s.cursor <= |s.log|
    && (s.lastTs.Some? ==> s.lastTs.value <= s.now && VisibleFrom(s.log, s.cursor, s.lastTs.value))
    && PhaseInv(s, overlapSeconds)
  }

  // ----- versions -----

  /** Between two snapshots either nothing happened to a row, or its version is one of the changes between them. */
  lemma {:induction false} VersionBetween(log: Log, a: nat, b: nat, id: nat)
    requires a <= b <= |log|
    ensures VersionAt(log, b, id) == VersionAt(log, a, id)
            || exists p: nat :: a <= p < b && VersionAt(log, b, id) == Some(log[p])
    decreases b - a
  {
    if a < b && log[b - 1].row.id != id {
      VersionBetween(log, a, b - 1, id);
    }
  }

  lemma {:induction false} VersionIsLogged(log: Log, n: nat, id: nat)
    requires n <= |log| && AliveAt(log, n, id).Some?
    ensures AliveInLog(log, AliveAt(log, n, id).value) && AliveAt(log, n, id).value.id == id
  {
    VersionBetween(log, 0, n, id);
  }

  lemma {:induction false} VersionIsStable(log: Log, c: Change, n: nat, id: nat)
    requires n <= |log|
    ensures VersionAt(log + [c], n, id) == VersionAt(log, n, id)
  {
    if n > 0 {
      VersionIsStable(log, c, n - 1, id);
    }
  }

  // ----- the container without key clashes -----

  /** The entries are filed under their ids and are rows of the log. */
  ghost predicate FromLog(m: Container, log: Log) {
    forall id <- m :: m[id].id == id && AliveInLog(log, m[id])
  }

  lemma UpsertWithoutClash(m: Container, log: Log, row: Row)
    requires NeverClashes(log) && FromLog(m, log) && AliveInLog(log, row)
    ensures Upserted(m, row, None) == m[row.id := row] && FromLog(m[row.id := row], log)
  {
    hide Clash, AliveInLog;
  }

  /** Every row of a delta reaches the container: it is stored if alive, gone if not. */
  lemma {:induction false} DeltaWithoutClash(m: Container, log: Log, rows: seq<Row>)
    requires NeverClashes(log) && FromLog(m, log) && DistinctIds(rows)
    requires forall r <- rows :: r.alive ==> AliveInLog(log, r)
    ensures FromLog(DeltaApplied(m, rows, None), log)
    ensures forall r <- rows :: Lookup(DeltaApplied(m, rows, None), r.id) == if r.alive then Some(r) else None
  {
    hide NeverClashes, AliveInLog, Upserted, IsContainer;
    if rows != [] {
      var n := |rows| - 1;
      DistinctPrefix(rows);
      DeltaWithoutClash(m, log, rows[..n]);
      var before := DeltaApplied(m, rows[..n], None);
      assert rows[n] in rows;
      if rows[n].alive {
        UpsertWithoutClash(before, log, rows[n]);
      }
      assert rows == rows[..n] + [rows[n]];
    }
  }

  /** The same for a full fetch, whose dead rows are skipped. */
  lemma {:induction false} UpsertsWithoutClash(m: Container, log: Log, rows: seq<Row>)
    requires NeverClashes(log) && FromLog(m, log) && DistinctIds(rows)
    requires forall r <- rows :: r.alive ==> AliveInLog(log, r)
    ensures FromLog(AllUpserted(m, rows, None), log)
    ensures forall r <- rows :: r.alive ==> Lookup(AllUpserted(m, rows, None), r.id) == Some(r)
  {
    hide NeverClashes, AliveInLog, Upserted, IsContainer;
    if rows != [] {
      var n := |rows| - 1;
      DistinctPrefix(rows);
      UpsertsWithoutClash(m, log, rows[..n]);
      var before := AllUpserted(m, rows[..n], None);
      assert rows[n] in rows;
      if rows[n].alive {
        UpsertWithoutClash(before, log, rows[n]);
      }
      assert rows == rows[..n] + [rows[n]];
    }
  }

  // ----- one call -----

  /** The rows are versions of snapshot n, one for each id. */
  ghost predicate AreVersions(rows: seq<Row>, log: Log, n: nat)
    requires n <= |log|
  {
    DistinctIds(rows) && forall r <- rows :: var v := VersionAt(log, n, r.id); v.Some? && v.value.row == r
  }

  /** An entry is the version fetched, or what it was before. */
  ghost predicate IsFetchedOrKept(m: Container, after: Container, log: Log, n: nat, id: nat)
    requires n <= |log|
  {
    Lookup(after, id) == AliveAt(log, n, id) || Lookup(after, id) == Lookup(m, id)
  }

  lemma {:induction false} DeltaEntry(m: Container, log: Log, n: nat, rows: seq<Row>, id: nat)
    requires n <= |log| && forall r <- rows :: var v := VersionAt(log, n, r.id); v.Some? && v.value.row == r
    ensures IsFetchedOrKept(m, DeltaApplied(m, rows, None), log, n, id)
  {
    hide VersionAt, Blocked, Clash, IsContainer;
    if rows != [] {
      assert rows[|rows| - 1] in rows;
      DeltaEntry(m, log, n, rows[..|rows| - 1], id);
    }
  }

  lemma {:induction false} UpsertedEntry(m: Container, log: Log, n: nat, rows: seq<Row>, id: nat)
    requires n <= |log| && forall r <- rows :: var v := VersionAt(log, n, r.id); v.Some? && v.value.row == r
    ensures IsFetchedOrKept(m, AllUpserted(m, rows, None), log, n, id)
  {
    hide VersionAt, Blocked, Clash, IsContainer;
    if rows != [] {
      assert rows[|rows| - 1] in rows;
      UpsertedEntry(m, log, n, rows[..|rows| - 1], id);
    }
  }

  /** An id that is not seen is not in the snapshot. */
  lemma ReconciledEntry(m: Container, log: Log, n: nat, rows: seq<Row>, id: nat)
    requires n <= |log| && IsFull(rows, log, n)
    ensures IsFetchedOrKept(m, Reconciled(m, rows, None), log, n, id)
  {
    hide VersionAt, AllUpserted, IsContainer;
    UpsertedEntry(m, log, n, rows, id);
  }

  /** Rows of one snapshot do not clash, so into an empty container all of them go. */
  lemma {:induction false} LoadedRows(log: Log, n: nat, rows: seq<Row>)
    requires n <= |log| && IsUniqueAt(log, n) && AreVersions(rows, log, n)
    ensures AllLoaded(AllUpserted(map[], rows, None), log, n, rows)
  {
    hide VersionAt, Clash, IsContainer, IsUniqueAt, AllLoaded, Upserted;
    if rows == [] {
      NothingLoaded(log, n);
    } else {
      var k := |rows| - 1;
      DistinctPrefix(rows);
      LoadedRows(log, n, rows[..k]);
      assert rows[k] in rows;
      RowIsLoaded(AllUpserted(map[], rows[..k], None), log, n, rows[..k], rows[k]);
      assert rows == rows[..k] + [rows[k]];
    }
  }

  /** m holds the alive ones of the rows, and nothing that is not in the snapshot. */
  ghost predicate AllLoaded(m: Container, log: Log, n: nat, rows: seq<Row>)
    requires n <= |log|
  {
    && (forall id <- m :: Lookup(m, id) == AliveAt(log, n, id))
    && (forall r <- rows :: r.alive ==> Lookup(m, r.id) == Some(r))
  }

  lemma NothingLoaded(log: Log, n: nat)
    requires n <= |log|
    ensures AllLoaded(map[], log, n, [])
  {
  }

  lemma RowIsLoaded(m: Container, log: Log, n: nat, rows: seq<Row>, row: Row)
    requires n <= |log| && IsUniqueAt(log, n) && AllLoaded(m, log, n, rows)
    requires VersionAt(log, n, row.id).Some? && VersionAt(log, n, row.id).value.row == row
    requires forall r <- rows :: r.id != row.id
    ensures AllLoaded(if row.alive then Upserted(m, row, None) else m, log, n, rows + [row])
  {
    hide VersionAt, Clash, IsContainer;
    if row.alive {
      assert AliveAt(log, n, row.id) == Some(row);
      assert !Blocked(m, row);
    }
  }

  /** loadAll is exact whatever the history of the keys. */
  lemma LoadIsSnapshot(log: Log, n: nat, rows: seq<Row>)
    requires n <= |log| && IsUniqueAt(log, n) && IsFull(rows, log, n)
    ensures IsSnapshot(AllUpserted(map[], rows, None), log, n)
  {
    hide VersionAt, Clash, IsUniqueAt, AllUpserted, AliveAt;
    LoadedRows(log, n, rows);
    var m := AllUpserted(map[], rows, None);
    forall id: nat ensures Lookup(m, id) == AliveAt(log, n, id) {
      AliveHasId(log, n, id);
      if AliveAt(log, n, id).Some? {
        assert AliveAt(log, n, id).value in rows;
      }
    }
  }

  lemma AliveHasId(log: Log, n: nat, id: nat)
    requires n <= |log|
    ensures AliveAt(log, n, id).Some? ==> AliveAt(log, n, id).value.id == id && AliveAt(log, n, id).value.alive
  {
    hide VersionAt;
  }

  lemma ContainerIsFromLog(s: State)
    requires EntriesAreVersions(s)
    ensures FromLog(s.container, s.log)
  {
    hide VersionAt, AliveInLog, AliveAt, Clash;
    forall id <- s.container ensures s.container[id].id == id && AliveInLog(s.log, s.container[id]) {
      assert Lookup(s.container, id) == AliveAt(s.log, s.version(id), id);
      VersionIsLogged(s.log, s.version(id), id);
    }
  }

  lemma ListedRowsAreLogged(rows: seq<Row>, log: Log, n: nat)
    requires n <= |log| && forall r <- rows :: var v := VersionAt(log, n, r.id); v.Some? && v.value.row == r
    ensures forall r <- rows :: r.alive ==> AliveInLog(log, r)
  {
    hide VersionAt, AliveInLog;
    forall r <- rows | r.alive ensures AliveInLog(log, r) {
      assert AliveAt(log, n, r.id) == Some(r);
      VersionIsLogged(log, n, r.id);
    }
  }

  /** A query from a cutoff lists every change made visible since the cursor's clock read if and only if the cutoff is
      not later than the one used. */
  lemma CutoffIsSharp(lastTs: int, overlapSeconds: int, cutoff: int)
    ensures (forall c: Change :: lastTs <= c.visible <= c.stamp + 1000 * overlapSeconds ==> c.stamp >= cutoff)
            <==> cutoff <= Cutoff(lastTs, overlapSeconds)
  {
    var c := Change(Row(0, [], 0, true), lastTs - 1000 * overlapSeconds, lastTs);
    assert lastTs <= c.visible <= c.stamp + 1000 * overlapSeconds;
  }

  /** A row the delta query left out did not change since the cursor, nor since any snapshot after it. */
  lemma UnlistedRowIsCurrent(s: State, overlapSeconds: int, rows: seq<Row>, n: nat, id: nat, since: nat)
    requires IsLog(s.log, s.now, overlapSeconds) && s.lastTs.Some? && s.cursor <= |s.log|
    requires VisibleFrom(s.log, s.cursor, s.lastTs.value) && s.cursor <= since <= n <= |s.log|
    requires IsDelta(rows, s.log, n, Cutoff(s.lastTs.value, overlapSeconds))
    requires forall r <- rows :: r.id != id
    ensures VersionAt(s.log, n, id) == VersionAt(s.log, since, id)
  {
    hide VersionAt, AliveAt, IsUniqueAt, IsDelta;
    VersionBetween(s.log, since, n, id);
    if p: nat :| since <= p < n && VersionAt(s.log, n, id) == Some(s.log[p]) {
      RecentRowIsListed(rows, s.log, n, Cutoff(s.lastTs.value, overlapSeconds), id);
    }
  }

  lemma RecentRowIsListed(rows: seq<Row>, log: Log, n: nat, cutoff: int, id: nat)
    requires n <= |log| && IsDelta(rows, log, n, cutoff)
    requires VersionAt(log, n, id).Some? && VersionAt(log, n, id).value.stamp >= cutoff
    ensures exists r <- rows :: r.id == id
  {
    hide VersionAt;
    assert VersionAt(log, n, id).value.row in rows;
  }

  /** A refresh is exact just when every row the delta query left out was already held as it is now. */
  lemma RefreshIsExactWhen(m: Container, log: Log, n: nat, rows: seq<Row>, cutoff: int)
    requires n <= |log| && NeverClashes(log) && FromLog(m, log) && IsDelta(rows, log, n, cutoff)
    ensures IsSnapshot(DeltaApplied(m, rows, None), log, n) <==>
            forall id: nat :: (forall r <- rows :: r.id != id) ==> Lookup(m, id) == AliveAt(log, n, id)
  {
    hide VersionAt, NeverClashes, AliveInLog, DeltaApplied, FromLog;
    ListedRowsAreLogged(rows, log, n);
    DeltaWithoutClash(m, log, rows);
    var after := DeltaApplied(m, rows, None);
    forall id: nat
      ensures (exists r <- rows :: r.id == id) ==> Lookup(after, id) == AliveAt(log, n, id)
      ensures (forall r <- rows :: r.id != id) ==> Lookup(after, id) == Lookup(m, id)
    {
      if r :| r in rows && r.id == id {
      } else {
        DeltaIsLocal(m, rows, None, id);
      }
    }
  }

  lemma RefreshIsSnapshot(s: State, overlapSeconds: int)
    requires Inv(s, overlapSeconds) && EntriesAreFresh(s) && NeverClashes(s.log)
    requires s.phase.Fetched? && s.phase.kind.Refresh?
    ensures IsSnapshot(DeltaApplied(s.container, s.phase.rows, None), s.log, s.phase.n)
  {
    hide VersionAt, NeverClashes, DeltaApplied, FromLog, IsSnapshot, Lookup, Cutoff, IsContainer, IsUniqueAt;
    var rows, n := s.phase.rows, s.phase.n;
    ContainerIsFromLog(s);
    RefreshIsExactWhen(s.container, s.log, n, rows, Cutoff(s.lastTs.value, overlapSeconds));
    forall id: nat | forall r <- rows :: r.id != id ensures Lookup(s.container, id) == AliveAt(s.log, n, id) {
      UnlistedRowIsCurrent(s, overlapSeconds, rows, n, id, s.version(id));
    }
  }

  lemma FullIsSnapshot(m: Container, log: Log, n: nat, rows: seq<Row>)
    requires n <= |log| && NeverClashes(log) && FromLog(m, log) && IsFull(rows, log, n)
    ensures IsSnapshot(Reconciled(m, rows, None), log, n)
    ensures m == map[] ==> IsSnapshot(AllUpserted(m, rows, None), log, n)
  {
    hide VersionAt, NeverClashes, AliveInLog, FromLog, AllUpserted;
    ListedRowsAreLogged(rows, log, n);
    UpsertsWithoutClash(m, log, rows);
    forall id: nat
      ensures Lookup(Reconciled(m, rows, None), id) == AliveAt(log, n, id)
      ensures m == map[] ==> Lookup(AllUpserted(m, rows, None), id) == AliveAt(log, n, id)
    {
      if id in Seen(rows) {
        var r :| r in rows && r.alive && r.id == id;
      } else {
        UpsertsKeepTheRest(m, rows, None, id);
      }
    }
  }

  /** Without key clashes the container holds, after every call, exactly the alive rows of the snapshot selected. */
  lemma ApplyIsSnapshot(s: State, s': State, overlapSeconds: int)
    requires Inv(s, overlapSeconds) && Next(s, Apply, s', overlapSeconds)
    requires s.phase.kind.LoadAll? || (EntriesAreFresh(s) && NeverClashes(s.log))
    ensures IsSnapshot(s'.container, s'.log, s.phase.n)
  {
    hide IsSnapshot, IsFull, IsDelta, EntriesAreVersions, FromLog, DeltaApplied, AllUpserted, Reconciled, NeverClashes;
    hide IsUniqueAt, VersionAfter;
    match s.phase.kind
    case Refresh => RefreshIsSnapshot(s, overlapSeconds);
    case Reconcile =>
      ContainerIsFromLog(s);
      FullIsSnapshot(s.container, s.log, s.phase.n, s.phase.rows);
    case LoadAll => LoadIsSnapshot(s.log, s.phase.n, s.phase.rows);
  }

  /** What a refresh returns is exactly what left the container. */
  lemma RefreshReturnsWhatLeft(s: State, s': State, overlapSeconds: int)
    requires Inv(s, overlapSeconds) && Next(s, Apply, s', overlapSeconds) && s.phase.kind.Refresh?
    ensures Lists(DeltaErased(s.container, s.phase.rows, None), s.container, s.container.Keys - s'.container.Keys)
    ensures forall id <- s.container.Keys - s'.container.Keys ::
              var v := VersionAt(s.log, s.phase.n, id); v.Some? && !v.value.row.alive
  {
    hide VersionAt, IsUniqueAt, DeltaApplied, Lists, IsContainer, VersionAfter;
    var rows := s.phase.rows;
    DeltaErasedIsWhatLeft(s.container, rows, None);
    forall id <- s.container.Keys - s'.container.Keys
      ensures var v := VersionAt(s.log, s.phase.n, id); v.Some? && !v.value.row.alive
    {
      DeltaRemovesDeadRows(s.container, rows, None, id);
      var r :| r in rows && r.id == id && !r.alive;
    }
  }

  // ----- the invariant -----

  lemma InitInv(s: State, overlapSeconds: int)
    requires Init(s, overlapSeconds)
    ensures Inv(s, overlapSeconds) && EntriesAreFresh(s)
  {
    hide IsUniqueAt;
  }

  lemma CommitKeepsInv(s: State, s': State, row: Row, stamp: int, overlapSeconds: int)
    requires Inv(s, overlapSeconds) && IsCommit(s, s', row, stamp, overlapSeconds) && s' == s.(log := s'.log)
    ensures Inv(s', overlapSeconds)
  {
    hide IsUniqueAt, VersionAt, AliveAt, IsDelta, IsFull, IsContainer;
    var c := Change(row, stamp, s.now);
    forall n: nat | n <= |s'.log| ensures IsUniqueAt(s'.log, n) {
      if n <= |s.log| {
        UniqueIsStable(s.log, c, n);
      }
    }
    forall id: nat
      ensures s'.version(id) <= |s'.log|
      ensures Lookup(s'.container, id) == AliveAt(s'.log, s'.version(id), id)
    {
      AliveIsStable(s.log, c, s.version(id), id);
    }
    if s.phase.Fetched? {
      ListingIsStable(s.log, c, s.phase.n, s.phase.rows);
    }
  }

  lemma UniqueIsStable(log: Log, c: Change, n: nat)
    requires n <= |log| && IsUniqueAt(log, n)
    ensures IsUniqueAt(log + [c], n)
  {
    hide AliveAt, Clash;
    forall id: nat ensures AliveAt(log + [c], n, id) == AliveAt(log, n, id) {
      AliveIsStable(log, c, n, id);
    }
  }

  lemma AliveIsStable(log: Log, c: Change, n: nat, id: nat)
    requires n <= |log|
    ensures AliveAt(log + [c], n, id) == AliveAt(log, n, id)
  {
    VersionIsStable(log, c, n, id);
  }

  /** What a SELECT returned does not change with later commits. */
  lemma ListingIsStable(log: Log, c: Change, n: nat, rows: seq<Row>)
    requires n <= |log|
    ensures forall cutoff: int :: IsDelta(rows, log, n, cutoff) ==> IsDelta(rows, log + [c], n, cutoff)
    ensures IsFull(rows, log, n) ==> IsFull(rows, log + [c], n)
  {
    hide VersionAt, AliveAt;
    forall id: nat
      ensures VersionAt(log + [c], n, id) == VersionAt(log, n, id)
      ensures AliveAt(log + [c], n, id) == AliveAt(log, n, id)
    {
      VersionIsStable(log, c, n, id);
      AliveIsStable(log, c, n, id);
    }
  }

  /** A call changes an entry only to the version it fetched. */
  lemma ApplyEntry(s: State, s': State, overlapSeconds: int, id: nat)
    requires Inv(s, overlapSeconds) && Next(s, Apply, s', overlapSeconds)
    ensures IsFetchedOrKept(s.container, s'.container, s.log, s.phase.n, id)
    ensures IsContainer(s'.container)
  {
    hide VersionAt, AliveAt, DeltaApplied, AllUpserted, IsUniqueAt, VersionAfter, Clash;
    match s.phase.kind
    case Refresh => DeltaEntry(s.container, s.log, s.phase.n, s.phase.rows, id);
    case Reconcile => ReconciledEntry(s.container, s.log, s.phase.n, s.phase.rows, id);
    case LoadAll => LoadIsSnapshot(s.log, s.phase.n, s.phase.rows);
  }

  lemma ApplyKeepsInv(s: State, s': State, overlapSeconds: int)
    requires Inv(s, overlapSeconds) && Next(s, Apply, s', overlapSeconds)
    ensures Inv(s', overlapSeconds)
  {
    hide IsUniqueAt, Applied, AliveAt, IsDelta, IsFull, IsContainer;
    ApplyEntry(s, s', overlapSeconds, 0);
    forall id: nat
      ensures s'.version(id) <= s.phase.n && Lookup(s'.container, id) == AliveAt(s'.log, s'.version(id), id)
    {
      ApplyEntry(s, s', overlapSeconds, id);
    }
  }

  lemma OwnerApplyKeepsInv(s: State, s': State, overlapSeconds: int)
    requires Inv(s, overlapSeconds) && Next(s, OwnerApply, s', overlapSeconds)
    ensures Inv(s', overlapSeconds)
  {
    hide IsUniqueAt, IsContainer, Blocked, AliveAt;
    OwnerVersion(s);
    forall id: nat
      ensures s'.version(id) <= |s.log| && Lookup(s'.container, id) == AliveAt(s'.log, s'.version(id), id)
    {
    }
    assert IsContainer(s'.container) by { ErasedIsContainer(s.container, s.log[s.phase.k].row.id); }
  }

  lemma ErasedIsContainer(m: Container, id: nat)
    requires IsContainer(m)
    ensures IsContainer(Erased(m, id))
  {
    hide Clash;
  }

  // The row the owner wrote is the newest version of its id just after its commit.
  lemma OwnerVersion(s: State)
    requires s.phase.OwnerWrote? && s.phase.k < |s.log|
    ensures var row := s.log[s.phase.k].row;
      AliveAt(s.log, s.phase.k + 1, row.id) == if row.alive then Some(row) else None
  {
    var k := s.phase.k;
    assert VersionAt(s.log, k + 1, s.log[k].row.id) == Some(s.log[k]);
  }

  lemma NextKeepsInv(s: State, a: Action, s': State, overlapSeconds: int)
    requires Inv(s, overlapSeconds) && Next(s, a, s', overlapSeconds)
    ensures Inv(s', overlapSeconds)
  {
    match a
    case Tick(to) =>
      hide IsUniqueAt, IsDelta, IsFull, AliveAt, IsContainer;
    case Commit(row, stamp) => CommitKeepsInv(s, s', row, stamp, overlapSeconds);
    case Begin(kind) =>
      hide IsUniqueAt, IsDelta, IsFull, AliveAt, IsContainer;
    case Fetch(rows) =>
      hide IsUniqueAt, IsDelta, IsFull, AliveAt, IsContainer;
    case Apply => ApplyKeepsInv(s, s', overlapSeconds);
    case OwnerCommit(row, stamp) =>
      hide IsUniqueAt, IsDelta, IsFull, AliveAt, IsContainer;
      CommitKeepsInv(s, s.(log := s'.log), row, stamp, overlapSeconds);
    case OwnerApply => OwnerApplyKeepsInv(s, s', overlapSeconds);
  }

  lemma ApplyMeans(s: State, s': State, overlapSeconds: int)
    requires Inv(s, overlapSeconds) && Next(s, Apply, s', overlapSeconds)
    ensures s.phase.Fetched? && s.cursor <= s.phase.n <= |s.log| && s'.log == s.log
    ensures forall id: nat :: s'.version(id) == VersionAfter(s, s'.container, s.phase.n, id)
    ensures s'.cursor == s.cursor || s'.cursor == s.phase.n
  {
    hide IsUniqueAt, IsDelta, IsFull, AliveAt, IsContainer, Applied, EntriesAreVersions, VersionAfter;
  }

  lemma ApplyKeepsFresh(s: State, s': State, overlapSeconds: int)
    requires Inv(s, overlapSeconds) && Next(s, Apply, s', overlapSeconds) && NeverClashes(s.log) && EntriesAreFresh(s)
    ensures EntriesAreFresh(s')
  {
    hide Inv, Next, AliveAt, NeverClashes, Lookup;
    ApplyMeans(s, s', overlapSeconds);
    ApplyIsSnapshot(s, s', overlapSeconds);
    forall id: nat ensures s'.version(id) == s.phase.n {
      assert Lookup(s'.container, id) == AliveAt(s'.log, s.phase.n, id);
    }
  }

  /** Without key clashes no entry falls behind the cursor. */
  lemma NextKeepsFresh(s: State, a: Action, s': State, overlapSeconds: int)
    requires Inv(s, overlapSeconds) && Next(s, a, s', overlapSeconds) && NeverClashes(s.log) && EntriesAreFresh(s)
    ensures EntriesAreFresh(s')
  {
    hide IsUniqueAt, IsDelta, IsFull, AliveAt, IsContainer, NeverClashes, Applied, WithOwnerRow, EntriesAreVersions;
    hide Lookup;
    match a
    case Apply => ApplyKeepsFresh(s, s', overlapSeconds);
    case OwnerApply =>
      forall id: nat ensures s'.cursor <= s'.version(id) {
        assert s.cursor <= s.version(id) <= s.phase.k;
      }
    case _ =>
      forall id: nat ensures s'.cursor <= s'.version(id) {
        assert s.cursor <= s.version(id);
      }
  }

  lemma PrefixNeverClashes(log: Log, longer: Log)
    requires log <= longer && NeverClashes(longer)
    ensures NeverClashes(log)
  {
    hide Clash;
    forall r: Row | AliveInLog(log, r) ensures AliveInLog(longer, r) {
      var i: nat :| i < |log| && log[i].row == r;
      assert longer[i].row == r;
    }
  }

  // ----- runs -----

  ghost predicate IsRun(states: seq<State>, actions: seq<Action>, overlapSeconds: int) {
    && |states| == |actions| + 1
    && Init(states[0], overlapSeconds)
    && forall i: nat :: i < |actions| ==> Next(states[i], actions[i], states[i + 1], overlapSeconds)
  }

  lemma {:induction false} RunKeepsInv(states: seq<State>, actions: seq<Action>, overlapSeconds: int, i: nat)
    requires IsRun(states, actions, overlapSeconds) && i < |states|
    ensures Inv(states[i], overlapSeconds)
  {
    hide Init, Next, Inv;
    if i == 0 {
      InitInv(states[0], overlapSeconds);
    } else {
      RunKeepsInv(states, actions, overlapSeconds, i - 1);
      NextKeepsInv(states[i - 1], actions[i - 1], states[i], overlapSeconds);
    }
  }

  lemma {:induction false} RunKeepsFresh(states: seq<State>, actions: seq<Action>, overlapSeconds: int, i: nat)
    requires IsRun(states, actions, overlapSeconds) && i < |states| && NeverClashes(states[i].log)
    ensures EntriesAreFresh(states[i])
  {
    hide Init, Next, Inv, NeverClashes, EntriesAreFresh;
    if i == 0 {
      InitInv(states[0], overlapSeconds);
    } else {
      RunKeepsInv(states, actions, overlapSeconds, i - 1);
      NextIsNewer(states[i - 1], actions[i - 1], states[i], overlapSeconds, 0);
      PrefixNeverClashes(states[i - 1].log, states[i].log);
      RunKeepsFresh(states, actions, overlapSeconds, i - 1);
      NextKeepsFresh(states[i - 1], actions[i - 1], states[i], overlapSeconds);
    }
  }

  /** In every run, loadAll leaves the alive rows of the snapshot it selected, and so do refresh and reconcile as long
      as no key was used by two rows. */
  lemma EveryCallIsSnapshot(states: seq<State>, actions: seq<Action>, overlapSeconds: int, i: nat)
    requires IsRun(states, actions, overlapSeconds) && i < |actions| && actions[i].Apply? && states[i].phase.Fetched?
    requires states[i].phase.kind.LoadAll? || NeverClashes(states[i].log)
    ensures IsSnapshot(states[i + 1].container, states[i + 1].log, states[i].phase.n)
  {
    hide IsSnapshot, IsLog, EntriesAreVersions, VisibleFrom, VersionsBelow, Applied, VersionAfter, NeverClashes;
    RunKeepsInv(states, actions, overlapSeconds, i);
    if !states[i].phase.kind.LoadAll? {
      RunKeepsFresh(states, actions, overlapSeconds, i);
    }
    ApplyIsSnapshot(states[i], states[i + 1], overlapSeconds);
  }

  lemma NextIsNewer(s: State, a: Action, s': State, overlapSeconds: int, id: nat)
    requires Inv(s, overlapSeconds) && Next(s, a, s', overlapSeconds)
    ensures s.version(id) <= s'.version(id) && s.log <= s'.log
  {
    hide IsLog, AliveAt, IsDelta, IsFull, Applied, WithOwnerRow, IsContainer, Lookup;
  }

  /** In every run an entry is always a version that was committed, and never an older one than before. */
  lemma {:induction false} EntriesNeverGoBack(states: seq<State>, actions: seq<Action>, overlapSeconds: int,
                                              i: nat, j: nat, id: nat)
    requires IsRun(states, actions, overlapSeconds) && i <= j < |states|
    ensures states[i].log <= states[j].log
    ensures states[i].version(id) <= states[j].version(id) <= |states[j].log|
    ensures Lookup(states[j].container, id) == AliveAt(states[j].log, states[j].version(id), id)
    decreases j
  {
    hide Init, Next, IsLog, VisibleFrom, PhaseInv, AliveAt;
    RunKeepsInv(states, actions, overlapSeconds, j);
    if i < j {
      EntriesNeverGoBack(states, actions, overlapSeconds, i, j - 1, id);
      NextHolds(states, actions, overlapSeconds, j - 1, id);
    }
  }

  lemma NextHolds(states: seq<State>, actions: seq<Action>, overlapSeconds: int, i: nat, id: nat)
    requires IsRun(states, actions, overlapSeconds) && i < |actions|
    ensures states[i].version(id) <= states[i + 1].version(id) && states[i].log <= states[i + 1].log
  {
    hide Init, Next, Inv;
    RunKeepsInv(states, actions, overlapSeconds, i);
    NextIsNewer(states[i], actions[i], states[i + 1], overlapSeconds, id);
  }
}
