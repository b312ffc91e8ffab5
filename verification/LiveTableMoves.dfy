/** Keys that move between rows within one delta. */
module LiveTableMoves {
  // Here the unique keys of the DB are unique at each instant only: a key may pass from one row to another.

  import opened Outcomes
  import opened LiveTables
  import opened LiveTableRuns

  /** An alive row of the delta takes a key that the container still holds for a row listed after it. */
  ghost predicate TakesKeyTooEarly(m: Container, rows: seq<Row>, i: nat, j: nat)
    requires i < j < |rows|
  {
    rows[i].alive && rows[j].id in m && Clash(rows[i], m[rows[j].id])
  }

  ghost predicate KeysAreFreedFirst(m: Container, rows: seq<Row>) {
    forall i: nat, j: nat :: i < j < |rows| ==> !TakesKeyTooEarly(m, rows, i, j)
  }

  /** The rows the delta left out are held as they are in the snapshot. */
  ghost predicate RestIsCurrent(m: Container, rows: seq<Row>, log: Log, n: nat)
    requires n <= |log|
  {
    forall id: nat :: (forall r <- rows :: r.id != id) ==> Lookup(m, id) == AliveAt(log, n, id)
  }

  /** What one row of a delta is to become. */
  function Target(r: Row): Option<Row> {
    if r.alive then Some(r) else None
  }

  lemma PrefixLeavesLater(m: Container, rows: seq<Row>, i: nat, id: nat)
    requires DistinctIds(rows) && i <= |rows|
    requires forall k: nat :: k < i ==> rows[k].id != id
    ensures Lookup(DeltaApplied(m, rows[..i], None), id) == Lookup(m, id)
  {
    hide DeltaApplied;
    DeltaIsLocal(m, rows[..i], None, id);
  }

  /** The entry of row i is settled by its own turn. */
  lemma {:induction false} LaterTurnsLeaveIt(m: Container, rows: seq<Row>, i: nat, n: nat)
    requires DistinctIds(rows) && i < n <= |rows|
    ensures Lookup(DeltaApplied(m, rows[..n], None), rows[i].id)
            == Lookup(DeltaApplied(m, rows[..i + 1], None), rows[i].id)
    decreases n
  {
    if i + 1 < n {
      LaterTurnsLeaveIt(m, rows, i, n - 1);
      assert rows[..n][..n - 1] == rows[..n - 1];
      assert rows[n - 1].id != rows[i].id;
    }
  }

  lemma TurnOf(m: Container, rows: seq<Row>, i: nat)
    requires i < |rows|
    ensures DeltaApplied(m, rows[..i + 1], None) ==
            var before := DeltaApplied(m, rows[..i], None);
            if rows[i].alive then Upserted(before, rows[i], None) else Erased(before, rows[i].id)
  {
    hide Upserted;
    assert rows[..i + 1][..i] == rows[..i];
  }

  /** A row that takes a key too early is refused, and the container keeps what it had for it. */
  lemma EarlyRowIsRefused(m: Container, rows: seq<Row>, i: nat, j: nat)
    requires IsContainer(m) && DistinctIds(rows) && i < j < |rows| && TakesKeyTooEarly(m, rows, i, j)
    ensures Lookup(DeltaApplied(m, rows, None), rows[i].id) != Some(rows[i])
  {
    hide DeltaApplied, Clash;
    var before := DeltaApplied(m, rows[..i], None);
    PrefixLeavesLater(m, rows, i, rows[j].id);
    PrefixLeavesLater(m, rows, i, rows[i].id);
    assert Lookup(before, rows[j].id) == Some(m[rows[j].id]);
    assert Clash(rows[i], before[rows[j].id]);
    TurnOf(m, rows, i);
    LaterTurnsLeaveIt(m, rows, i, |rows|);
    assert rows[..|rows|] == rows;
    assert rows[i].id in m ==> m[rows[i].id] != rows[i];
  }

  /** If every key is freed first, each row of the delta is settled as the DB has it. */
  lemma {:induction false} RowsAreSettled(m: Container, rows: seq<Row>, log: Log, n: nat, cutoff: int, i: nat)
    requires n <= |log| && IsContainer(m) && IsUniqueAt(log, n) && IsDelta(rows, log, n, cutoff) && i <= |rows|
    requires KeysAreFreedFirst(m, rows) && RestIsCurrent(m, rows, log, n)
    ensures forall k: nat :: k < i ==> Lookup(DeltaApplied(m, rows[..i], None), rows[k].id) == Target(rows[k])
    decreases i
  {
    hide DeltaApplied, Clash, IsUniqueAt, KeysAreFreedFirst, RestIsCurrent, VersionAt, IsContainer;
    if i > 0 {
      RowsAreSettled(m, rows, log, n, cutoff, i - 1);
      TurnOf(m, rows, i - 1);
      if rows[i - 1].alive {
        NothingBlocks(m, rows, log, n, cutoff, i - 1);
      }
    }
  }

  lemma TargetIsVersion(rows: seq<Row>, log: Log, n: nat, cutoff: int, r: Row)
    requires n <= |log| && IsDelta(rows, log, n, cutoff) && r in rows
    ensures AliveAt(log, n, r.id) == Target(r)
  {
    hide VersionAt;
  }

  lemma UniqueTargets(log: Log, n: nat, a: Row, b: Row)
    requires n <= |log| && IsUniqueAt(log, n)
    requires AliveAt(log, n, a.id) == Some(a) && AliveAt(log, n, b.id) == Some(b)
    ensures !Clash(a, b)
  {
    hide VersionAt, AliveAt, Clash;
  }

  lemma NothingBlocks(m: Container, rows: seq<Row>, log: Log, n: nat, cutoff: int, i: nat)
    requires n <= |log| && IsContainer(m) && IsUniqueAt(log, n) && IsDelta(rows, log, n, cutoff)
    requires i < |rows| && rows[i].alive
    requires KeysAreFreedFirst(m, rows) && RestIsCurrent(m, rows, log, n)
    requires forall k: nat :: k < i ==> Lookup(DeltaApplied(m, rows[..i], None), rows[k].id) == Target(rows[k])
    ensures !Blocked(DeltaApplied(m, rows[..i], None), rows[i])
  {
    hide DeltaApplied, Clash, IsUniqueAt, VersionAt, AliveAt, IsContainer;
    var before, r := DeltaApplied(m, rows[..i], None), rows[i];
    TargetIsVersion(rows, log, n, cutoff, r);
    forall q <- before ensures !Clash(r, before[q]) {
      if k: nat :| k < |rows| && rows[k].id == q {
        TargetIsVersion(rows, log, n, cutoff, rows[k]);
        if k < i {
          UniqueTargets(log, n, r, rows[k]);
        } else if k > i {
          PrefixLeavesLater(m, rows, i, q);
          assert !TakesKeyTooEarly(m, rows, i, k);
        } else {
          NeverClashesWithItself(before, r);
        }
      } else {
        PrefixLeavesLater(m, rows, i, q);
        assert Lookup(m, q) == AliveAt(log, n, q);
        AliveHasId(log, n, q);
        UniqueTargets(log, n, r, before[q]);
      }
    }
  }

  lemma NeverClashesWithItself(m: Container, r: Row)
    requires IsContainer(m) && r.id in m
    ensures !Clash(r, m[r.id])
  {
  }

  /**
   * For any container and any delta of a DB whose keys are unique at that instant, a refresh leaves the snapshot if and
   * only if the rows left out are current and no row takes a key before the row that gives it up.
   */
  lemma RefreshIsExactIff(m: Container, log: Log, n: nat, rows: seq<Row>, cutoff: int)
    requires n <= |log| && IsContainer(m) && IsUniqueAt(log, n) && IsDelta(rows, log, n, cutoff)
    ensures IsSnapshot(DeltaApplied(m, rows, None), log, n) <==>
            RestIsCurrent(m, rows, log, n) && KeysAreFreedFirst(m, rows)
  {
    hide DeltaApplied, Clash, IsUniqueAt, VersionAt, AliveAt, IsContainer;
    var after := DeltaApplied(m, rows, None);
    forall id: nat | forall r <- rows :: r.id != id ensures Lookup(after, id) == Lookup(m, id) {
      DeltaIsLocal(m, rows, None, id);
    }
    if RestIsCurrent(m, rows, log, n) && KeysAreFreedFirst(m, rows) {
      RowsAreSettled(m, rows, log, n, cutoff, |rows|);
      assert rows[..|rows|] == rows;
      forall id: nat ensures Lookup(after, id) == AliveAt(log, n, id) {
        if k: nat :| k < |rows| && rows[k].id == id {
          TargetIsVersion(rows, log, n, cutoff, rows[k]);
        }
      }
    } else if i: nat, j: nat :| i < j < |rows| && TakesKeyTooEarly(m, rows, i, j) {
      EarlyRowIsRefused(m, rows, i, j);
      TargetIsVersion(rows, log, n, cutoff, rows[i]);
    }
  }

  // ----- runs -----

  predicate Listed(rows: seq<Row>, id: nat) {
    exists r <- rows :: r.id == id
  }

  /** When the turn of its row comes, an index refuses it. */
  ghost predicate Refused(m: Container, rows: seq<Row>, id: nat) {
    exists i: nat :: i < |rows| && rows[i].id == id && rows[i].alive
                     && Blocked(DeltaApplied(m, rows[..i], None), rows[i])
  }

  /** The entry of id is what the DB has in snapshot n. */
  ghost predicate IsRight(m: Container, log: Log, n: nat, id: nat)
    requires n <= |log|
  {
    Lookup(m, id) == AliveAt(log, n, id)
  }

  lemma ListedEntry(m: Container, log: Log, n: nat, rows: seq<Row>, id: nat)
    requires n <= |log| && IsContainer(m) && AreVersions(rows, log, n) && Listed(rows, id)
    ensures IsRight(DeltaApplied(m, rows, None), log, n, id) <==> !Refused(m, rows, id)
    ensures Refused(m, rows, id) ==> Lookup(DeltaApplied(m, rows, None), id) == Lookup(m, id)
  {
    hide *;
    var k := PlaceOf(rows, id);
    var before := DeltaApplied(m, rows[..k], None);
    AreDistinct(rows, log, n);
    EntryAtTurn(m, rows, k);
    VersionOfRow(rows, log, n, k);
    IsRightMeans(DeltaApplied(m, rows, None), log, n, id);
    RefusedAt(m, rows, k);
  }

  lemma AreDistinct(rows: seq<Row>, log: Log, n: nat)
    requires n <= |log| && AreVersions(rows, log, n)
    ensures DistinctIds(rows)
  {
  }

  lemma IsRightMeans(m: Container, log: Log, n: nat, id: nat)
    requires n <= |log|
    ensures IsRight(m, log, n, id) <==> Lookup(m, id) == AliveAt(log, n, id)
  {
  }

  lemma PlaceOf(rows: seq<Row>, id: nat) returns (k: nat)
    requires Listed(rows, id)
    ensures k < |rows| && rows[k].id == id
  {
    k :| k < |rows| && rows[k].id == id;
  }

  lemma VersionOfRow(rows: seq<Row>, log: Log, n: nat, k: nat)
    requires n <= |log| && AreVersions(rows, log, n) && k < |rows|
    ensures AliveAt(log, n, rows[k].id) == Target(rows[k])
  {
    hide VersionAt;
    assert rows[k] in rows;
  }

  lemma RefusedAt(m: Container, rows: seq<Row>, k: nat)
    requires DistinctIds(rows) && k < |rows|
    ensures Refused(m, rows, rows[k].id) <==> rows[k].alive && Blocked(DeltaApplied(m, rows[..k], None), rows[k])
  {
    hide DeltaApplied, Blocked;
  }

  /** Row k settles its entry, or an index refuses it and the entry stays. */
  lemma EntryAtTurn(m: Container, rows: seq<Row>, k: nat)
    requires IsContainer(m) && DistinctIds(rows) && k < |rows|
    ensures var before, after := DeltaApplied(m, rows[..k], None), DeltaApplied(m, rows, None);
            var refused := rows[k].alive && Blocked(before, rows[k]);
            && (Lookup(after, rows[k].id) == Target(rows[k]) <==> !refused)
            && (refused ==> Lookup(after, rows[k].id) == Lookup(m, rows[k].id))
  {
    hide DeltaApplied, Clash, Blocked;
    var before := DeltaApplied(m, rows[..k], None);
    PrefixLeavesLater(m, rows, k, rows[k].id);
    TurnOf(m, rows, k);
    LaterTurnsLeaveIt(m, rows, k, |rows|);
    assert rows[..|rows|] == rows;
    HeldRowIsNotBlocked(before, rows[k]);
  }

  lemma HeldRowIsNotBlocked(m: Container, row: Row)
    requires IsContainer(m)
    ensures Lookup(m, row.id) == Some(row) ==> !Blocked(m, row)
  {
  }

  lemma UnlistedEntry(s: State, s': State, overlapSeconds: int, id: nat)
    requires Inv(s, overlapSeconds) && Next(s, Apply, s', overlapSeconds) && s.phase.kind.Refresh?
    requires !Listed(s.phase.rows, id)
    ensures Lookup(s'.container, id) == Lookup(s.container, id)
    ensures AliveAt(s.log, s.phase.n, id) == AliveAt(s.log, s.cursor, id)
  {
    hide VersionAt, IsUniqueAt, DeltaApplied, IsContainer;
    DeltaIsLocal(s.container, s.phase.rows, None, id);
    UnlistedRowIsCurrent(s, overlapSeconds, s.phase.rows, s.phase.n, id, s.cursor);
  }

  /**
   * Whatever keys move, a refresh gets an entry right if and only if its row is listed and not refused, or is not
   * listed and was right for the cursor. An entry it gets wrong is left as it was.
   */
  lemma RefreshEntry(s: State, s': State, overlapSeconds: int, id: nat)
    requires Inv(s, overlapSeconds) && Next(s, Apply, s', overlapSeconds) && s.phase.kind.Refresh?
    ensures IsRight(s'.container, s'.log, s.phase.n, id) <==>
            if Listed(s.phase.rows, id) then !Refused(s.container, s.phase.rows, id)
            else IsRight(s.container, s.log, s.cursor, id)
    ensures !IsRight(s'.container, s'.log, s.phase.n, id) ==> Lookup(s'.container, id) == Lookup(s.container, id)
  {
    hide VersionAt, AliveAt, IsUniqueAt, DeltaApplied, IsContainer, Listed, Refused;
    if Listed(s.phase.rows, id) {
      ListedEntry(s.container, s.log, s.phase.n, s.phase.rows, id);
    } else {
      UnlistedEntry(s, s', overlapSeconds, id);
    }
  }

  /** In every run, a refresh is exact if and only if every key is freed first and every row left out was right. */
  lemma EveryRefreshIsExactIff(states: seq<State>, actions: seq<Action>, overlapSeconds: int, i: nat)
    requires IsRun(states, actions, overlapSeconds) && i < |actions| && actions[i].Apply?
    requires states[i].phase.Fetched? && states[i].phase.kind.Refresh?
    ensures var s := states[i];
      && s.phase.n <= |s.log| && s.cursor <= |s.log| && s.log == states[i + 1].log
      && (IsSnapshot(states[i + 1].container, s.log, s.phase.n) <==>
          KeysAreFreedFirst(s.container, s.phase.rows)
          && forall id: nat :: !Listed(s.phase.rows, id) ==> IsRight(s.container, s.log, s.cursor, id))
  {
    hide VersionAt, AliveAt, IsUniqueAt, DeltaApplied, IsContainer, Init, KeysAreFreedFirst, IsSnapshot, Lookup;
    hide Listed, RestIsCurrent;
    RunKeepsInv(states, actions, overlapSeconds, i);
    var s, s' := states[i], states[i + 1];
    RefreshIsExactIff(s.container, s.log, s.phase.n, s.phase.rows, Cutoff(s.lastTs.value, overlapSeconds));
    forall id: nat | !Listed(s.phase.rows, id)
      ensures AliveAt(s.log, s.phase.n, id) == AliveAt(s.log, s.cursor, id)
    {
      UnlistedEntry(s, s', overlapSeconds, id);
    }
    RestIsRight(s.container, s.phase.rows, s.log, s.phase.n, s.cursor);
  }

  lemma RestIsRight(m: Container, rows: seq<Row>, log: Log, n: nat, cursor: nat)
    requires n <= |log| && cursor <= |log|
    requires forall id: nat :: !Listed(rows, id) ==> AliveAt(log, n, id) == AliveAt(log, cursor, id)
    ensures RestIsCurrent(m, rows, log, n) <==> forall id: nat :: !Listed(rows, id) ==> IsRight(m, log, cursor, id)
  {
    hide AliveAt, Lookup;
    if RestIsCurrent(m, rows, log, n) {
      forall id: nat | !Listed(rows, id) ensures IsRight(m, log, cursor, id) {
        assert forall r <- rows :: r.id != id;
      }
    }
    if forall id: nat :: !Listed(rows, id) ==> IsRight(m, log, cursor, id) {
      forall id: nat | forall r <- rows :: r.id != id ensures Lookup(m, id) == AliveAt(log, n, id) {
        assert !Listed(rows, id) && IsRight(m, log, cursor, id);
      }
    }
  }

  /** A step that does not offer the row of id to the container. */
  ghost predicate PassesBy(s: State, a: Action, id: nat) {
    match a
    case Apply => s.phase.Fetched? && s.phase.kind.Refresh? && !Listed(s.phase.rows, id)
    case OwnerApply => s.phase.OwnerWrote? && s.phase.k < |s.log| && s.log[s.phase.k].row.id != id
    case _ => true
  }

  lemma PassedEntry(s: State, a: Action, s': State, overlapSeconds: int, id: nat)
    requires Inv(s, overlapSeconds) && Next(s, a, s', overlapSeconds) && PassesBy(s, a, id)
    ensures Inv(s', overlapSeconds)
    ensures Lookup(s'.container, id) == Lookup(s.container, id)
    ensures AliveAt(s'.log, s'.cursor, id) == AliveAt(s.log, s.cursor, id)
  {
    hide VersionAt, AliveAt, IsUniqueAt, DeltaApplied, IsContainer, Listed, IsDelta, IsFull;
    NextKeepsInv(s, a, s', overlapSeconds);
    match a
    case Apply => UnlistedEntry(s, s', overlapSeconds, id);
    case Commit(row, stamp) => AliveIsStable(s.log, Change(row, stamp, s.now), s.cursor, id);
    case OwnerCommit(row, stamp) => AliveIsStable(s.log, Change(row, stamp, s.now), s.cursor, id);
    case _ =>
  }

  /**
   * In every run, an entry that was refused stays as it was, and wrong for the cursor, until its row is offered again:
   * by a delta that lists it, a reconcile, a load, or a write of the owner.
   */
  lemma {:induction false} StaysUntilOffered(states: seq<State>, actions: seq<Action>, overlapSeconds: int,
                                             i: nat, j: nat, id: nat)
    requires IsRun(states, actions, overlapSeconds) && i <= j < |states|
    requires forall k: nat :: i <= k < j ==> PassesBy(states[k], actions[k], id)
    ensures states[i].cursor <= |states[i].log| && states[j].cursor <= |states[j].log|
    ensures Lookup(states[j].container, id) == Lookup(states[i].container, id)
    ensures IsRight(states[j].container, states[j].log, states[j].cursor, id)
            <==> IsRight(states[i].container, states[i].log, states[i].cursor, id)
    ensures AliveAt(states[j].log, states[j].cursor, id) == AliveAt(states[i].log, states[i].cursor, id)
    decreases j
  {
    hide Init, Next, IsLog, VisibleFrom, PhaseInv, AliveAt, EntriesAreVersions, Lookup, PassesBy;
    RunKeepsInv(states, actions, overlapSeconds, i);
    if i < j {
      StaysUntilOffered(states, actions, overlapSeconds, i, j - 1, id);
      RunKeepsInv(states, actions, overlapSeconds, j - 1);
      PassedEntry(states[j - 1], actions[j - 1], states[j], overlapSeconds, id);
    }
  }
}
