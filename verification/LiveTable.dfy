/** An in-memory copy of a DB table. */
module LiveTables {
  import opened Outcomes

  /** A row: its id, its key in each extra unique index, the rest of its columns. */
  datatype Row = Row(id: nat, keys: seq<int>, payload: int, alive: bool)

  type Container = map<nat, Row>

  /** The optional hook that can refuse a new row. */
  type Admission = Option<Row -> bool>

  /** Two rows that some extra unique index cannot hold together. */
  predicate Clash(r: Row, s: Row) {
    r.id != s.id && exists j: nat | j < |r.keys| && j < |s.keys| :: r.keys[j] == s.keys[j]
  }

  /** What the indexes keep: rows are filed under their id, and no unique index holds two equal keys. */
  ghost predicate IsContainer(m: Container) {
    && (forall id <- m :: m[id].id == id)
    && (forall a <- m, b <- m :: !Clash(m[a], m[b]))
  }

  predicate Blocked(m: Container, row: Row) {
    exists id <- m :: Clash(row, m[id])
  }

  predicate Admits(admit: Admission, row: Row) {
    admit.Some? ==> admit.value(row)
  }

  /** The container after one upsert: a refused or rejected row leaves it as it was. */
  function Upserted(m: Container, row: Row, admit: Admission): (r: Container)
    ensures IsContainer(m) ==> IsContainer(r)
    ensures m.Keys <= r.Keys <= m.Keys + {row.id}
    ensures forall id <- m :: id != row.id ==> r[id] == m[id]
  {
    if row.id !in m then
      if Admits(admit, row) && !Blocked(m, row) then m[row.id := row] else m
    else if m[row.id] == row || Blocked(m, row) then m
    else m[row.id := row]
  }

  function Erased(m: Container, id: nat): Container {
    m - {id}
  }

  /** The alive rows upserted in turn. */
  function AllUpserted(m: Container, rows: seq<Row>, admit: Admission): (r: Container)
    ensures IsContainer(m) ==> IsContainer(r)
  {
    if rows == [] then m
    else
      var before := AllUpserted(m, rows[..|rows| - 1], admit);
      var row := rows[|rows| - 1];
      if row.alive then Upserted(before, row, admit) else before
  }

  /** The delta applied in turn: alive rows upserted, the others erased. */
  function DeltaApplied(m: Container, rows: seq<Row>, admit: Admission): (r: Container)
    ensures IsContainer(m) ==> IsContainer(r)
  {
    if rows == [] then m
    else
      var before := DeltaApplied(m, rows[..|rows| - 1], admit);
      var row := rows[|rows| - 1];
      if row.alive then Upserted(before, row, admit) else Erased(before, row.id)
  }

  /** The rows the delta erased, in order. */
  function DeltaErased(m: Container, rows: seq<Row>, admit: Admission): seq<Row> {
    if rows == [] then []
    else
      var n := |rows| - 1;
      var before := DeltaApplied(m, rows[..n], admit);
      var erased := DeltaErased(m, rows[..n], admit);
      if !rows[n].alive && rows[n].id in before then erased + [before[rows[n].id]] else erased
  }

  /** The ids of the alive rows. */
  function Seen(rows: seq<Row>): set<nat> {
    set r <- rows | r.alive :: r.id
  }

  /** A full fetch merged in: alive rows upserted, ids that are not in the result erased. */
  function Reconciled(m: Container, rows: seq<Row>, admit: Admission): (r: Container)
    ensures IsContainer(m) ==> IsContainer(r)
  {
    var merged := AllUpserted(m, rows, admit);
    merged - (merged.Keys - Seen(rows))
  }

  ghost predicate DistinctIds(rows: seq<Row>) {
    forall i: nat, j: nat :: i < j < |rows| ==> rows[i].id != rows[j].id
  }

  /** rows lists, in any order and once each, the rows of m whose ids are in ids. */
  ghost predicate Lists(rows: seq<Row>, m: Container, ids: set<nat>) {
    && DistinctIds(rows)
    && (forall r <- rows :: r.id in ids && r.id in m && m[r.id] == r)
    && (forall id <- ids :: id in m && m[id] in rows)
  }

  lemma ListsNothing(m: Container)
    ensures Lists([], m, {})
  {
  }

  lemma ListsOneMore(rows: seq<Row>, m: Container, ids: set<nat>, id: nat)
    requires IsContainer(m) && Lists(rows, m, ids) && id in m && id !in ids
    ensures Lists(rows + [m[id]], m, ids + {id})
  {
    hide Clash;
    var more := rows + [m[id]];
    assert forall r <- more :: r in rows || r == m[id];
    assert more[|rows|] == m[id];
    assert forall k <- ids :: m[k] in more by {
      forall k <- ids ensures m[k] in more {
        var i :| 0 <= i < |rows| && rows[i] == m[k];
        assert more[i] == m[k];
      }
    }
  }

  class LiveTable {
    var container: Container
    var lastTs: Option<int>
    var overlapSeconds: int
    var admitNew: Admission

    ghost predicate Valid()
      reads this
    {
      IsContainer(container)
    }

    constructor ()
      ensures Valid() && container == map[] && lastTs == None && overlapSeconds == 60 && admitNew == None
    {
      container, lastTs, overlapSeconds, admitNew := map[], None, 60, None;
    }

    method UpsertLocked(row: Row)
      requires Valid()
      modifies this`container
      ensures Valid() && container == Upserted(old(container), row, admitNew)
    {
      if row.id !in container {
        if admitNew.Some? && !admitNew.value(row) {
          return;
        }
        if !Blocked(container, row) {
          container := container[row.id := row];
        }
        return;
      }
      if container[row.id] == row {
        return;
      }
      if !Blocked(container, row) {
        container := container[row.id := row];
      }
    }

    method EraseLocked(id: nat) returns (was: Option<Row>)
      requires Valid()
      modifies this`container
      ensures Valid() && container == Erased(old(container), id)
      ensures was == if id in old(container) then Some(old(container)[id]) else None
    {
      if id !in container {
        return None;
      }
      was := Some(container[id]);
      container := container - {id};
    }

    /** nextTs is what the clock of the DB said, rows what the full SELECT after it returned. */
    method LoadAll(nextTs: int, rows: seq<Row>)
      requires Valid()
      modifies this`container, this`lastTs
      ensures Valid() && container == AllUpserted(map[], rows, admitNew) && lastTs == Some(nextTs)
    {
      container := map[];
      for i := 0 to |rows|
        invariant Valid() && container == AllUpserted(map[], rows[..i], admitNew)
      {
        assert rows[..i + 1][..i] == rows[..i];
        if rows[i].alive {
          UpsertLocked(rows[i]);
        }
      }
      assert rows[..|rows|] == rows;
      lastTs := Some(nextTs);
    }

    /** select answers the delta query for a cutoff, in milliseconds. */
    method Refresh(nextTs: int, select: int -> seq<Row>) returns (r: Result<seq<Row>>)
      requires Valid()
      modifies this`container, this`lastTs
      ensures Valid()
      ensures old(lastTs).None? ==> r == Err(NotLoaded) && container == old(container) && lastTs == old(lastTs)
      ensures old(lastTs).Some? ==>
                var rows := select(Cutoff(old(lastTs).value, overlapSeconds));
                && r == Ok(DeltaErased(old(container), rows, admitNew))
                && container == DeltaApplied(old(container), rows, admitNew)
                && lastTs == Some(nextTs)
    {
      hide Upserted, Clash, Blocked, IsContainer;
      if lastTs.None? {
        return Err(NotLoaded);
      }
      var rows := select(lastTs.value - 1000 * overlapSeconds);
      var erased: seq<Row> := [];
      for i := 0 to |rows|
        invariant Valid() && container == DeltaApplied(old(container), rows[..i], admitNew)
        invariant erased == DeltaErased(old(container), rows[..i], admitNew)
      {
        assert rows[..i + 1][..i] == rows[..i];
        if rows[i].alive {
          UpsertLocked(rows[i]);
        } else {
          var was := EraseLocked(rows[i].id);
          if was.Some? {
            erased := erased + [was.value];
          }
        }
      }
      assert rows[..|rows|] == rows;
      lastTs := Some(nextTs);
      r := Ok(erased);
    }

    /** The erased rows come in the order of the container, which is not specified. */
    method Reconcile(rows: seq<Row>) returns (erased: seq<Row>)
      requires Valid()
      modifies this`container
      ensures Valid() && container == Reconciled(old(container), rows, admitNew)
      ensures Lists(erased, AllUpserted(old(container), rows, admitNew),
                    AllUpserted(old(container), rows, admitNew).Keys - Seen(rows))
    {
      hide IsContainer, Lists, Upserted, Clash, Blocked;
      var seen: set<nat> := {};
      for i := 0 to |rows|
        invariant Valid() && container == AllUpserted(old(container), rows[..i], admitNew)
        invariant seen == Seen(rows[..i])
      {
        assert rows[..i + 1] == rows[..i] + [rows[i]];
        if rows[i].alive {
          seen := seen + {rows[i].id};
          UpsertLocked(rows[i]);
        }
      }
      assert rows[..|rows|] == rows;
      erased := EraseAll(container.Keys - seen);
    }

    // The second loop of Reconcile.
    method EraseAll(gone: set<nat>) returns (erased: seq<Row>)
      requires Valid() && gone <= container.Keys
      modifies this`container
      ensures Valid() && container == old(container) - gone
      ensures Lists(erased, old(container), gone)
    {
      hide Lists, Upserted, Clash, Blocked;
      var left := gone;
      erased := [];
      ListsNothing(old(container));
      assert gone - left == {};
      while left != {}
        invariant Valid() && left <= gone && container == old(container) - (gone - left)
        invariant Lists(erased, old(container), gone - left)
      {
        var id :| id in left;
        var was := EraseLocked(id);
        ListsOneMore(erased, old(container), gone - left, id);
        erased := erased + [was.value];
        assert gone - (left - {id}) == gone - left + {id};
        left := left - {id};
      }
      assert gone - left == gone;
    }

    /** For the owner, which holds the gate. */
    method Upsert(row: Row)
      requires Valid()
      modifies this`container
      ensures Valid() && container == Upserted(old(container), row, admitNew)
    {
      UpsertLocked(row);
    }

    method Erase(id: nat) returns (was: Option<Row>)
      requires Valid()
      modifies this`container
      ensures Valid() && container == Erased(old(container), id)
      ensures was == if id in old(container) then Some(old(container)[id]) else None
    {
      was := EraseLocked(id);
    }
  }

  /** The delta query asks for rows stamped at or after this, in milliseconds. */
  function Cutoff(lastTs: int, overlapSeconds: int): int {
    lastTs - 1000 * overlapSeconds
  }

  lemma DistinctPrefix(rows: seq<Row>)
    requires rows != [] && DistinctIds(rows)
    ensures DistinctIds(rows[..|rows| - 1])
    ensures forall r <- rows[..|rows| - 1] :: r.id != rows[|rows| - 1].id && r in rows
  {
  }

  /** A delta leaves every id it does not mention alone. */
  lemma {:induction false} DeltaIsLocal(m: Container, rows: seq<Row>, admit: Admission, id: nat)
    requires forall r <- rows :: r.id != id
    ensures var after := DeltaApplied(m, rows, admit);
            (id in m <==> id in after) && (id in m ==> after[id] == m[id])
  {
    if rows != [] {
      DeltaIsLocal(m, rows[..|rows| - 1], admit, id);
    }
  }

  /** The ids a delta removes are those of its dead rows. */
  lemma {:induction false} DeltaRemovesDeadRows(m: Container, rows: seq<Row>, admit: Admission, id: nat)
    requires DistinctIds(rows)
    ensures id !in DeltaApplied(m, rows, admit) && id in m ==> exists r <- rows :: r.id == id && !r.alive
    ensures (exists r <- rows :: r.id == id && !r.alive) ==> id !in DeltaApplied(m, rows, admit)
  {
    hide Upserted, Clash, Blocked, IsContainer;
    if rows != [] {
      var n := |rows| - 1;
      DistinctPrefix(rows);
      DeltaRemovesDeadRows(m, rows[..n], admit, id);
      assert rows == rows[..n] + [rows[n]];
      if id == rows[n].id {
        DeltaIsLocal(m, rows[..n], admit, id);
        if rows[n].alive {
          assert forall r <- rows :: r.id == id ==> r == rows[n];
        } else {
          assert rows[n] in rows;
        }
      }
    }
  }

  /** What refresh returns is exactly what left the container, each row once and as it was. */
  lemma {:induction false} DeltaErasedIsWhatLeft(m: Container, rows: seq<Row>, admit: Admission)
    requires IsContainer(m) && DistinctIds(rows)
    ensures Lists(DeltaErased(m, rows, admit), m, m.Keys - DeltaApplied(m, rows, admit).Keys)
  {
    hide Lists, IsContainer, Upserted, Clash, Blocked;
    if rows == [] {
      ListsNothing(m);
      assert m.Keys - m.Keys == {};
    } else {
      var n := |rows| - 1;
      var row := rows[n];
      DistinctPrefix(rows);
      DeltaErasedIsWhatLeft(m, rows[..n], admit);
      var before := DeltaApplied(m, rows[..n], admit);
      DeltaIsLocal(m, rows[..n], admit, row.id);
      var after := DeltaApplied(m, rows, admit);
      if !row.alive && row.id in before {
        ListsOneMore(DeltaErased(m, rows[..n], admit), m, m.Keys - before.Keys, row.id);
        assert m.Keys - after.Keys == m.Keys - before.Keys + {row.id};
      } else {
        assert m.Keys - after.Keys == m.Keys - before.Keys;
      }
    }
  }

  lemma {:induction false} UpsertsKeepTheRest(m: Container, rows: seq<Row>, admit: Admission, id: nat)
    requires id !in Seen(rows)
    ensures var after := AllUpserted(m, rows, admit);
            (id in m <==> id in after) && (id in m ==> after[id] == m[id])
  {
    if rows != [] {
      assert rows == rows[..|rows| - 1] + [rows[|rows| - 1]];
      UpsertsKeepTheRest(m, rows[..|rows| - 1], admit, id);
    }
  }

  lemma {:induction false} UpsertsKeepIds(m: Container, rows: seq<Row>, admit: Admission)
    ensures m.Keys <= AllUpserted(m, rows, admit).Keys
  {
    if rows != [] {
      UpsertsKeepIds(m, rows[..|rows| - 1], admit);
    }
  }

  /** What reconcile returns is exactly what left the container. */
  lemma ReconcileErasedIsWhatLeft(m: Container, rows: seq<Row>, admit: Admission, erased: seq<Row>)
    requires Lists(erased, AllUpserted(m, rows, admit), AllUpserted(m, rows, admit).Keys - Seen(rows))
    ensures Lists(erased, m, m.Keys - Reconciled(m, rows, admit).Keys)
  {
    hide IsContainer, Upserted, Clash, Blocked;
    var merged := AllUpserted(m, rows, admit);
    UpsertsKeepIds(m, rows, admit);
    forall id: nat | id !in Seen(rows)
      ensures (id in m <==> id in merged) && (id in m ==> merged[id] == m[id])
    {
      UpsertsKeepTheRest(m, rows, admit, id);
    }
    assert m.Keys - Reconciled(m, rows, admit).Keys == merged.Keys - Seen(rows);
  }

  // ----- the hook for new rows -----

  /** An id that a delta brings in was admitted, and is held as the delta has it. */
  lemma {:induction false} DeltaAdmitsNewIds(m: Container, rows: seq<Row>, admit: Admission, id: nat)
    requires DistinctIds(rows) && id !in m && id in DeltaApplied(m, rows, admit)
    ensures exists r <- rows :: r.id == id && r.alive && Admits(admit, r) && DeltaApplied(m, rows, admit)[id] == r
  {
    hide Clash, Blocked, IsContainer, Admits;
    var n := |rows| - 1;
    DistinctPrefix(rows);
    assert rows == rows[..n] + [rows[n]];
    if rows[n].id == id {
      DeltaIsLocal(m, rows[..n], admit, id);
      assert rows[n] in rows;
    } else {
      DeltaAdmitsNewIds(m, rows[..n], admit, id);
    }
  }

  /** So was an id that a full fetch brings in. */
  lemma {:induction false} FetchAdmitsNewIds(m: Container, rows: seq<Row>, admit: Admission, id: nat)
    requires DistinctIds(rows) && id !in m && id in AllUpserted(m, rows, admit)
    ensures exists r <- rows :: r.id == id && r.alive && Admits(admit, r) && AllUpserted(m, rows, admit)[id] == r
  {
    hide Clash, Blocked, IsContainer, Admits;
    var n := |rows| - 1;
    DistinctPrefix(rows);
    assert rows == rows[..n] + [rows[n]];
    if rows[n].id == id {
      UpsertsKeepTheRest(m, rows[..n], admit, id);
      assert rows[n] in rows;
    } else {
      FetchAdmitsNewIds(m, rows[..n], admit, id);
    }
  }

  /** The hook is not asked about a row that is already held: without new ids it makes no difference. */
  lemma {:induction false} HookIsForNewIds(m: Container, rows: seq<Row>, admit: Admission)
    requires DistinctIds(rows) && forall r <- rows :: r.alive ==> r.id in m
    ensures DeltaApplied(m, rows, admit) == DeltaApplied(m, rows, None)
    ensures AllUpserted(m, rows, admit) == AllUpserted(m, rows, None)
  {
    hide Clash, Blocked, IsContainer, Admits;
    if rows != [] {
      var n := |rows| - 1;
      DistinctPrefix(rows);
      assert rows[n] in rows;
      HookIsForNewIds(m, rows[..n], admit);
      DeltaIsLocal(m, rows[..n], None, rows[n].id);
      UpsertsKeepIds(m, rows[..n], None);
    }
  }
}
