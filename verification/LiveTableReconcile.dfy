/** Repeated reconciles against a DB that stands still. */
module LiveTableReconcile {
  import opened FiniteSets
  import opened LiveTables

  /** The alive rows of the DB, which keeps its own unique indexes. */
  ghost predicate IsDb(db: Container) {
    IsContainer(db) && forall id <- db :: db[id].alive
  }

  /** A full fetch of db: its rows in any order, perhaps with dead rows among them. */
  ghost predicate IsFetch(rows: seq<Row>, db: Container) {
    && DistinctIds(rows)
    && (forall r <- rows :: r.alive ==> r.id in db && db[r.id] == r)
    && (forall id <- db :: db[id] in rows)
  }

  ghost predicate AdmitsAll(admit: Admission, db: Container) {
    forall id <- db :: Admits(admit, db[id])
  }

  ghost predicate Matched(m: Container, db: Container, id: nat) {
    id in m && id in db && m[id] == db[id]
  }

  /** The rows of the DB that the container does not hold as they are. */
  ghost function Pending(m: Container, db: Container): set<nat> {
    set id <- db | !Matched(m, db, id)
  }

  /** Every row of after is the row of m or the row of db; matched rows stay matched, no id is lost. */
  ghost predicate Toward(m: Container, after: Container, db: Container) {
    && m.Keys <= after.Keys
    && (forall id <- after :: (id in m && after[id] == m[id]) || Matched(after, db, id))
    && (forall id <- db :: Matched(m, db, id) ==> Matched(after, db, id))
  }

  /** The pending row p cannot be stored: the container holds, under q, one of its new keys. */
  ghost predicate Holds(m: Container, db: Container, q: nat, p: nat) {
    q in m && p in db && Clash(db[p], m[q])
  }

  ghost predicate Waits(m: Container, db: Container, s: set<nat>, p: nat) {
    exists q <- s :: Holds(m, db, q, p)
  }

  /** A set of pending rows each of which waits for a key that another of them still holds. */
  ghost predicate Deadlock(m: Container, db: Container, s: set<nat>) {
    s != {} && s <= Pending(m, db) && forall p <- s :: Waits(m, db, s, p)
  }

  /** A wait depends only on what the container holds for the set. */
  lemma SameWait(m: Container, after: Container, db: Container, s: set<nat>, p: nat)
    requires Waits(m, db, s, p)
    requires forall q <- s :: q in m ==> q in after && after[q] == m[q]
    ensures Waits(after, db, s, p)
  {
    hide Clash;
    var q :| q in s && Holds(m, db, q, p);
    assert Holds(after, db, q, p);
  }

  lemma UpsertTowards(m: Container, start: Container, db: Container, row: Row, admit: Admission)
    requires Toward(start, m, db) && row.id in db && db[row.id] == row
    ensures Toward(start, Upserted(m, row, admit), db)
  {
    hide Clash;
  }

  lemma {:induction false} FetchPrefix(rows: seq<Row>, db: Container, n: nat)
    requires IsFetch(rows, db) && n < |rows|
    ensures rows[..n + 1] == rows[..n] + [rows[n]]
    ensures rows[n].alive ==> rows[n].id in db && db[rows[n].id] == rows[n]
  {
  }

  lemma {:induction false} UpsertsGoTowards(m: Container, db: Container, rows: seq<Row>, n: nat, admit: Admission)
    requires IsFetch(rows, db) && n <= |rows|
    ensures Toward(m, AllUpserted(m, rows[..n], admit), db)
    decreases n
  {
    if n > 0 {
      hide IsFetch, Upserted, IsContainer;
      FetchPrefix(rows, db, n - 1);
      UpsertsGoTowards(m, db, rows, n - 1, admit);
      assert rows[..n][..n - 1] == rows[..n - 1];
      var before := AllUpserted(m, rows[..n - 1], admit);
      if rows[n - 1].alive {
        UpsertTowards(before, m, db, rows[n - 1], admit);
      }
    }
  }

  lemma SeenIsDb(rows: seq<Row>, db: Container)
    requires IsDb(db) && IsFetch(rows, db)
    ensures Seen(rows) == db.Keys
  {
    hide Clash;
    forall id <- db ensures id in Seen(rows) {
      assert db[id] in rows && db[id].id == id && db[id].alive;
    }
  }

  /** One call keeps what matches, changes rows only towards the DB, and drops every id the DB does not have. */
  lemma ReconcileGoesTowards(m: Container, db: Container, rows: seq<Row>, admit: Admission)
    requires IsDb(db) && IsFetch(rows, db)
    ensures var after := Reconciled(m, rows, admit);
            && after.Keys <= db.Keys
            && (forall id <- after :: (id in m && after[id] == m[id]) || Matched(after, db, id))
            && (forall id <- db :: id in m ==> id in after)
            && (forall id <- db :: Matched(m, db, id) ==> Matched(after, db, id))
            && Pending(after, db) <= Pending(m, db)
  {
    hide IsDb, IsFetch, IsContainer;
    UpsertsGoTowards(m, db, rows, |rows|, admit);
    assert rows[..|rows|] == rows;
    SeenIsDb(rows, db);
    var merged := AllUpserted(m, rows, admit);
    var after := Reconciled(m, rows, admit);
    assert forall id <- after :: id in merged && after[id] == merged[id];
    assert forall id <- db :: id in merged ==> id in after;
  }

  lemma UpsertStores(m: Container, row: Row, admit: Admission)
    requires Admits(admit, row) && !Blocked(m, row)
    ensures var after := Upserted(m, row, admit); row.id in after && after[row.id] == row
  {
  }

  /** A row whose keys nobody holds, before and after the change of any other row, is matched by one call. */
  lemma {:induction false} FreeRowIsMatched(m: Container, db: Container, rows: seq<Row>, admit: Admission, p: nat)
    requires IsDb(db) && IsFetch(rows, db) && AdmitsAll(admit, db)
    requires p in db && forall q: nat :: !Holds(m, db, q, p)
    ensures Matched(Reconciled(m, rows, admit), db, p)
  {
    hide IsFetch, Upserted;
    var i: nat :| i < |rows| && rows[i] == db[p] by { assert db[p] in rows by { RowsHaveAll(rows, db, p); } }
    FetchPrefix(rows, db, i);
    UpsertsGoTowards(m, db, rows, i, admit);
    var before := AllUpserted(m, rows[..i], admit);
    assert !Blocked(before, db[p]) by {
      forall q <- before ensures !Clash(db[p], before[q]) {
        if q in m && before[q] == m[q] {
          assert !Holds(m, db, q, p);
        }
      }
    }
    UpsertStores(before, db[p], admit);
    assert rows[..i + 1][..i] == rows[..i];
    StaysMatched(m, db, rows, i + 1, admit, p);
  }

  lemma RowsHaveAll(rows: seq<Row>, db: Container, p: nat)
    requires IsFetch(rows, db) && p in db
    ensures db[p] in rows
  {
  }

  lemma {:induction false} StaysMatched(m: Container, db: Container, rows: seq<Row>, n: nat, admit: Admission, p: nat)
    requires IsDb(db) && IsFetch(rows, db) && n <= |rows|
    requires Matched(AllUpserted(m, rows[..n], admit), db, p)
    ensures Matched(Reconciled(m, rows, admit), db, p)
    decreases |rows| - n
  {
    hide IsFetch, Upserted, IsContainer;
    if n == |rows| {
      assert rows[..n] == rows;
      SeenIsDb(rows, db);
    } else {
      FetchPrefix(rows, db, n);
      assert rows[..n + 1][..n] == rows[..n];
      var before := AllUpserted(m, rows[..n], admit);
      if rows[n].alive {
        TowardItself(before, db);
        UpsertTowards(before, before, db, rows[n], admit);
      }
      StaysMatched(m, db, rows, n + 1, admit, p);
    }
  }

  lemma TowardItself(m: Container, db: Container)
    ensures Toward(m, m, db)
  {
  }

  lemma MatchedRowsDoNotClash(m: Container, db: Container, q: nat, p: nat)
    requires IsDb(db) && Holds(m, db, q, p)
    ensures !Matched(m, db, q)
  {
  }

  /** Without a deadlock some pending row has all its keys free. */
  lemma SomeRowIsFree(m: Container, db: Container) returns (p: nat)
    requires IsDb(db) && m.Keys <= db.Keys && Pending(m, db) != {} && !Deadlock(m, db, Pending(m, db))
    ensures p in Pending(m, db) && forall q: nat :: !Holds(m, db, q, p)
  {
    hide IsContainer, Clash;
    p :| p in Pending(m, db) && !Waits(m, db, Pending(m, db), p);
    forall q: nat ensures !Holds(m, db, q, p) {
      if q !in Pending(m, db) && Holds(m, db, q, p) {
        MatchedRowsDoNotClash(m, db, q, p);
      }
    }
  }

  /** A deadlock after a call was there before it. */
  lemma NoNewDeadlock(m: Container, db: Container, rows: seq<Row>, admit: Admission, s: set<nat>)
    requires IsDb(db) && IsFetch(rows, db) && Deadlock(Reconciled(m, rows, admit), db, s)
    ensures Deadlock(m, db, s)
  {
    hide IsDb, IsFetch, IsContainer, Reconciled, Waits, Clash;
    ReconcileGoesTowards(m, db, rows, admit);
    var after := Reconciled(m, rows, admit);
    assert forall q <- s :: q in Pending(m, db) && (q in after ==> q in m && m[q] == after[q]) by {
      assert forall q <- s :: q in Pending(after, db);
    }
    forall p <- s ensures Waits(m, db, s, p) {
      SameWait(after, m, db, s, p);
    }
  }

  /** A deadlock survives every upsert of a call. */
  lemma {:induction false} UpsertsKeepDeadlock(m: Container, db: Container, rows: seq<Row>, n: nat,
                                               admit: Admission, s: set<nat>)
    requires IsDb(db) && IsFetch(rows, db) && n <= |rows| && Deadlock(m, db, s)
    ensures var after := AllUpserted(m, rows[..n], admit);
            forall p <- s :: (p in m <==> p in after) && (p in m ==> after[p] == m[p])
    decreases n
  {
    hide IsFetch, IsContainer, Clash, Blocked, Deadlock;
    if n > 0 {
      FetchPrefix(rows, db, n - 1);
      UpsertsKeepDeadlock(m, db, rows, n - 1, admit, s);
      assert rows[..n][..n - 1] == rows[..n - 1];
      var before := AllUpserted(m, rows[..n - 1], admit);
      var row := rows[n - 1];
      if row.id in s && row.alive {
        DeadlockBlocks(m, before, db, s, row);
      }
    }
  }

  lemma DeadlockBlocks(m: Container, before: Container, db: Container, s: set<nat>, row: Row)
    requires Deadlock(m, db, s) && row.id in s && row.id in db && db[row.id] == row
    requires forall p <- s :: (p in m <==> p in before) && (p in m ==> before[p] == m[p])
    ensures Blocked(before, row)
  {
    hide Clash;
    assert Waits(m, db, s, row.id);
    var q :| q in s && Holds(m, db, q, row.id);
    assert Clash(row, before[q]);
  }

  lemma DeadlockStays(m: Container, db: Container, rows: seq<Row>, admit: Admission, s: set<nat>)
    requires IsDb(db) && IsFetch(rows, db) && Deadlock(m, db, s)
    ensures Deadlock(Reconciled(m, rows, admit), db, s)
  {
    hide IsDb, IsFetch, IsContainer, Clash, Waits;
    UpsertsKeepDeadlock(m, db, rows, |rows|, admit, s);
    assert rows[..|rows|] == rows;
    SeenIsDb(rows, db);
    var after := Reconciled(m, rows, admit);
    assert forall p <- s :: p in Pending(m, db) && (p in m <==> p in after) && (p in m ==> after[p] == m[p]);
    forall p <- s ensures Waits(after, db, s, p) {
      SameWait(m, after, db, s, p);
    }
  }

  /** The container after one reconcile for each fetch. */
  ghost function AfterCalls(m: Container, fetches: seq<seq<Row>>, admit: Admission): Container
    decreases |fetches|
  {
    if fetches == [] then m else AfterCalls(Reconciled(m, fetches[0], admit), fetches[1..], admit)
  }

  lemma NothingPending(m: Container, db: Container)
    requires m.Keys <= db.Keys
    ensures Pending(m, db) == {} <==> m == db
  {
    if Pending(m, db) == {} {
      assert forall id <- db :: Matched(m, db, id) by {
        forall id <- db ensures Matched(m, db, id) {
          assert id !in Pending(m, db);
        }
      }
      assert m.Keys == db.Keys;
    }
  }

  /** Without stale ids, each call settles at least one pending row. */
  lemma {:induction false} ConvergesWithoutStaleRows(m: Container, db: Container, fetches: seq<seq<Row>>,
                                                     admit: Admission)
    requires IsDb(db) && (forall f <- fetches :: IsFetch(f, db)) && AdmitsAll(admit, db)
    requires m.Keys <= db.Keys && forall s: set<nat> :: !Deadlock(m, db, s)
    requires |fetches| >= |Pending(m, db)|
    ensures AfterCalls(m, fetches, admit) == db
    decreases |fetches|
  {
    hide IsDb, IsFetch, IsContainer, Deadlock, Reconciled, AdmitsAll;
    if fetches == [] {
      NothingPending(m, db);
    } else {
      var after := Reconciled(m, fetches[0], admit);
      ReconcileGoesTowards(m, db, fetches[0], admit);
      if Pending(m, db) != {} {
        var p := SomeRowIsFree(m, db);
        FreeRowIsMatched(m, db, fetches[0], admit, p);
        assert Pending(after, db) <= Pending(m, db) - {p};
        SubsetSize(Pending(after, db), Pending(m, db) - {p});
      } else {
        assert Pending(after, db) == {};
      }
      forall s: set<nat> ensures !Deadlock(after, db, s) {
        if Deadlock(after, db, s) {
          NoNewDeadlock(m, db, fetches[0], admit, s);
        }
      }
      ConvergesWithoutStaleRows(after, db, fetches[1..], admit);
    }
  }

  lemma {:induction false} DeadlockNeverResolves(m: Container, db: Container, fetches: seq<seq<Row>>,
                                                 admit: Admission, s: set<nat>)
    requires IsDb(db) && (forall f <- fetches :: IsFetch(f, db)) && Deadlock(m, db, s)
    ensures AfterCalls(m, fetches, admit) != db
    decreases |fetches|
  {
    hide IsDb, IsFetch, IsContainer, Reconciled, Clash, Waits;
    if fetches != [] {
      DeadlockStays(m, db, fetches[0], admit, s);
      DeadlockNeverResolves(Reconciled(m, fetches[0], admit), db, fetches[1..], admit, s);
    } else {
      var p :| p in s;
      assert p in Pending(m, db);
    }
  }

  /** Enough calls make the container equal to the DB exactly when no rows deadlock. */
  lemma ReconcileConverges(m: Container, db: Container, fetches: seq<seq<Row>>, admit: Admission)
    requires IsDb(db) && (forall f <- fetches :: IsFetch(f, db)) && AdmitsAll(admit, db)
    requires |fetches| >= |Pending(m, db)| + 1
    ensures AfterCalls(m, fetches, admit) == db <==> forall s: set<nat> :: !Deadlock(m, db, s)
  {
    hide IsDb, IsFetch, IsContainer, Reconciled, Deadlock, AdmitsAll;
    if s: set<nat> :| Deadlock(m, db, s) {
      DeadlockNeverResolves(m, db, fetches, admit, s);
    } else {
      var after := Reconciled(m, fetches[0], admit);
      ReconcileGoesTowards(m, db, fetches[0], admit);
      SubsetSize(Pending(after, db), Pending(m, db));
      forall s: set<nat> ensures !Deadlock(after, db, s) {
        if Deadlock(after, db, s) {
          NoNewDeadlock(m, db, fetches[0], admit, s);
        }
      }
      ConvergesWithoutStaleRows(after, db, fetches[1..], admit);
    }
  }

  /** Pending rows in a ring: the next one holds a key that this one needs. */
  ghost predicate IsCycle(m: Container, db: Container, c: seq<nat>) {
    && c != []
    && (forall p <- c :: p in Pending(m, db))
    && (forall i: nat :: i < |c| ==> Holds(m, db, c[if i + 1 == |c| then 0 else i + 1], c[i]))
  }

  ghost predicate IsChain(m: Container, db: Container, s: set<nat>, c: seq<nat>) {
    (forall p <- c :: p in s) && forall i: nat :: i + 1 < |c| ==> Holds(m, db, c[i + 1], c[i])
  }

  lemma {:induction false} ChainOfLength(m: Container, db: Container, s: set<nat>, n: nat) returns (c: seq<nat>)
    requires Deadlock(m, db, s)
    ensures |c| == n + 1 && IsChain(m, db, s, c)
  {
    hide Holds, Pending, Waits;
    if n == 0 {
      var p :| p in s;
      c := [p];
    } else {
      var shorter := ChainOfLength(m, db, s, n - 1);
      var q := HolderInSet(m, db, s, shorter[n - 1]);
      c := shorter + [q];
    }
  }

  lemma HolderInSet(m: Container, db: Container, s: set<nat>, p: nat) returns (q: nat)
    requires Deadlock(m, db, s) && p in s
    ensures q in s && Holds(m, db, q, p)
  {
    hide Holds, Pending;
    assert Waits(m, db, s, p);
    q :| q in s && Holds(m, db, q, p);
  }

  /** More members than the set they come from: two are the same. */
  lemma {:induction false} Pigeonhole(c: seq<nat>, s: set<nat>) returns (i: nat, j: nat)
    requires |c| > |s| && forall p <- c :: p in s
    ensures i < j < |c| && c[i] == c[j]
  {
    var n := |c| - 1;
    assert c[n] in s;
    if k: nat :| k < n && c[k] == c[n] {
      i, j := k, n;
    } else {
      i, j := Pigeonhole(c[..n], s - {c[n]});
    }
  }

  lemma DeadlockHasCycle(m: Container, db: Container, s: set<nat>) returns (c: seq<nat>)
    requires Deadlock(m, db, s)
    ensures IsCycle(m, db, c)
  {
    hide Holds, Pending;
    var chain := ChainOfLength(m, db, s, |s|);
    var i, j := Pigeonhole(chain, s);
    c := chain[i..j];
    forall p <- c ensures p in Pending(m, db) {
      assert p in chain;
    }
    forall k: nat | k < |c| ensures Holds(m, db, c[if k + 1 == |c| then 0 else k + 1], c[k]) {
      assert Holds(m, db, chain[i + k + 1], chain[i + k]);
    }
  }

  lemma CycleIsDeadlock(m: Container, db: Container, c: seq<nat>)
    requires IsCycle(m, db, c)
    ensures Deadlock(m, db, set p <- c)
  {
    hide Holds, Pending;
    var s := set p <- c;
    assert c[0] in s;
    forall p <- s ensures Waits(m, db, s, p) {
      var i: nat :| i < |c| && c[i] == p;
      var next: nat := if i + 1 == |c| then 0 else i + 1;
      assert Holds(m, db, c[next], c[i]) && c[next] in s;
    }
  }

  /** Enough calls make the container equal to the DB exactly when the pending key moves contain no cycle. */
  lemma ReconcileConvergesWithoutCycles(m: Container, db: Container, fetches: seq<seq<Row>>, admit: Admission)
    requires IsDb(db) && (forall f <- fetches :: IsFetch(f, db)) && AdmitsAll(admit, db)
    requires |fetches| >= |Pending(m, db)| + 1
    ensures AfterCalls(m, fetches, admit) == db <==> forall c: seq<nat> :: !IsCycle(m, db, c)
  {
    hide *;
    ReconcileConverges(m, db, fetches, admit);
    if c: seq<nat> :| IsCycle(m, db, c) {
      CycleIsDeadlock(m, db, c);
    } else if s: set<nat> :| Deadlock(m, db, s) {
      var c := DeadlockHasCycle(m, db, s);
    }
  }

  /** Two rows that exchanged their keys in the DB are never exchanged in the container. */
  lemma SwappedKeysNeverResolve(fetches: seq<seq<Row>>, admit: Admission)
    requires forall f <- fetches :: IsFetch(f, map[1 := Row(1, [20], 0, true), 2 := Row(2, [10], 0, true)])
    ensures AfterCalls(map[1 := Row(1, [10], 0, true), 2 := Row(2, [20], 0, true)], fetches, admit)
            != map[1 := Row(1, [20], 0, true), 2 := Row(2, [10], 0, true)]
  {
    hide IsFetch, AfterCalls, Deadlock;
    var m := map[1 := Row(1, [10], 0, true), 2 := Row(2, [20], 0, true)];
    var db := map[1 := Row(1, [20], 0, true), 2 := Row(2, [10], 0, true)];
    SwapDeadlocks(m, db);
    DeadlockNeverResolves(m, db, fetches, admit, {1, 2});
  }

  lemma SwapDeadlocks(m: Container, db: Container)
    requires m == map[1 := Row(1, [10], 0, true), 2 := Row(2, [20], 0, true)]
    requires db == map[1 := Row(1, [20], 0, true), 2 := Row(2, [10], 0, true)]
    ensures IsDb(db) && Deadlock(m, db, {1, 2})
  {
    assert db[1].keys[0] == m[2].keys[0] && db[2].keys[0] == m[1].keys[0];
    assert Holds(m, db, 2, 1) && Holds(m, db, 1, 2);
    assert Waits(m, db, {1, 2}, 1) && Waits(m, db, {1, 2}, 2);
    assert 1 in Pending(m, db) && 2 in Pending(m, db);
  }
}
