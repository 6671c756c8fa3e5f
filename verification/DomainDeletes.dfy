/** Batch deletes from the four domain lists: which rows go, and in which order. */
module DomainDeletes {
  import opened DomainTables

  datatype Stored = Stored(kind: Kind, row: Row)

  datatype Target = Target(item: string, list: DomainList)

  function Tagged(kind: Kind, rows: seq<Row>): (stored: seq<Stored>)
    ensures |stored| == |rows|
    ensures forall i :: 0 <= i < |rows| ==> stored[i] == Stored(kind, rows[i])
  {
    seq(|rows|, i requires 0 <= i < |rows| => Stored(kind, rows[i]))
  }

  /** Every entry, exact before regex, each table in the order of its ids. */
  function StoredEntries(db: Db): seq<Stored> {
    Tagged(Exact, db.exact.rows) + Tagged(Regex, db.regex.rows)
  }

  predicate Targeted(stored: Stored, targets: seq<Target>) {
    exists target :: target in targets && target.list.kind == stored.kind
                     && stored.row.entry.Is(target.list.action, target.item)
  }

  /** The ids of one table's targeted entries. */
  ghost function Gone(stored: seq<Stored>, kind: Kind, targets: seq<Target>): set<nat> {
    if stored == [] then {}
    else
      var last := stored[|stored| - 1];
      Gone(stored[..|stored| - 1], kind, targets) +
        if last.kind == kind && Targeted(last, targets) then {last.row.id} else {}
  }

  ghost function Size(db: Db): nat {
    |db.exact.rows| + |db.regex.rows|
  }

  /** The rows no target names. */
  ghost function Kept(rows: seq<Row>, kind: Kind, targets: seq<Target>): seq<Row> {
    if rows == [] then []
    else
      var rest, last := Kept(rows[..|rows| - 1], kind, targets), rows[|rows| - 1];
      if Targeted(Stored(kind, last), targets) then rest else rest + [last]
  }

  lemma {:induction false} GoneExactly(stored: seq<Stored>, kind: Kind, targets: seq<Target>, id: nat)
    ensures id in Gone(stored, kind, targets)
       <==> exists i :: 0 <= i < |stored| && stored[i].kind == kind && stored[i].row.id == id
                        && Targeted(stored[i], targets)
    decreases |stored|
  {
    if stored != [] {
      var front := stored[..|stored| - 1];
      GoneExactly(front, kind, targets, id);
      assert forall i :: 0 <= i < |front| ==> front[i] == stored[i];
    }
  }

  lemma {:induction false} RisingAt(rows: seq<Row>, bound: nat, i: nat, j: nat)
    requires Rising(rows, bound) && i < j < |rows|
    ensures rows[i].id < rows[j].id
    decreases |rows|
  {
    var front := rows[..|rows| - 1];
    if j == |front| {
      HasAt(front, i);
      IdBelow(front, rows[j].id, front[i]);
    } else {
      RisingAt(front, rows[|front|].id, i, j);
    }
  }

  lemma StoredDistinct(db: Db, i: nat, j: nat)
    requires WellFormed(db) && i < |StoredEntries(db)| && j < |StoredEntries(db)|
    requires StoredEntries(db)[i].kind == StoredEntries(db)[j].kind
    requires StoredEntries(db)[i].row.id == StoredEntries(db)[j].row.id
    ensures i == j
  {
    var n := |db.exact.rows|;
    if i < j {
      if j < n {
        RisingAt(db.exact.rows, db.exact.next, i, j);
      } else {
        RisingAt(db.regex.rows, db.regex.next, i - n, j - n);
      }
    } else if j < i {
      if i < n {
        RisingAt(db.exact.rows, db.exact.next, j, i);
      } else {
        RisingAt(db.regex.rows, db.regex.next, j - n, i - n);
      }
    }
  }

  lemma StoredIsHeld(db: Db, i: nat)
    requires i < |StoredEntries(db)|
    ensures Has(db.At(StoredEntries(db)[i].kind).rows, StoredEntries(db)[i].row)
  {
    var n := |db.exact.rows|;
    if i < n {
      HasAt(db.exact.rows, i);
    } else {
      HasAt(db.regex.rows, i - n);
    }
  }

  lemma {:induction false} WithoutHas(rows: seq<Row>, gone: set<nat>, row: Row)
    requires Has(rows, row) && row.id !in gone
    ensures Has(Without(rows, gone), row)
    decreases |rows|
  {
    var front, last := rows[..|rows| - 1], rows[|rows| - 1];
    if last != row {
      WithoutHas(front, gone, row);
      if last.id !in gone {
        assert Without(rows, gone)[..|Without(rows, gone)| - 1] == Without(front, gone);
      }
    }
  }

  /** An entry reached by the delete loop is still there. */
  lemma NotYetGone(db: Db, i: nat, targets: seq<Target>)
    requires WellFormed(db) && i < |StoredEntries(db)|
    ensures var stored := StoredEntries(db)[i];
            Has(Without(db.At(stored.kind).rows, Gone(StoredEntries(db)[..i], stored.kind, targets)), stored.row)
  {
    var all := StoredEntries(db);
    var gone := Gone(all[..i], all[i].kind, targets);
    GoneExactly(all[..i], all[i].kind, targets, all[i].row.id);
    if all[i].row.id in gone {
      var j :| 0 <= j < i && all[..i][j].kind == all[i].kind && all[..i][j].row.id == all[i].row.id;
      StoredDistinct(db, j, i);
      assert false;
    }
    StoredIsHeld(db, i);
    WithoutHas(db.At(all[i].kind).rows, gone, all[i].row);
  }

  /** `done` entries in, each table has lost exactly their targeted ones. */
  ghost predicate PartlyDeleted(db: Db, db': Db, done: nat, targets: seq<Target>)
    requires done <= |StoredEntries(db)|
  {
    DeletedIn(db, db', Exact, done, targets) && DeletedIn(db, db', Regex, done, targets)
  }

  ghost predicate DeletedIn(db: Db, db': Db, kind: Kind, done: nat, targets: seq<Target>)
    requires done <= |StoredEntries(db)|
  {
    db'.At(kind).rows == Without(db.At(kind).rows, Gone(StoredEntries(db)[..done], kind, targets))
  }

  lemma NothingDeleted(db: Db, targets: seq<Target>)
    ensures PartlyDeleted(db, db, 0, targets)
  {
    WithoutNothing(db.exact.rows);
    WithoutNothing(db.regex.rows);
  }

  lemma {:induction false} WithoutNothing(rows: seq<Row>)
    ensures Without(rows, {}) == rows
    decreases |rows|
  {
    if rows != [] {
      WithoutNothing(rows[..|rows| - 1]);
    }
  }

  lemma GoneStep(stored: seq<Stored>, i: nat, kind: Kind, targets: seq<Target>)
    requires i < |stored|
    ensures Gone(stored[..i + 1], kind, targets) ==
            if stored[i].kind == kind && Targeted(stored[i], targets)
            then Gone(stored[..i], kind, targets) + {stored[i].row.id} else Gone(stored[..i], kind, targets)
  {
    assert stored[..i + 1][..i] == stored[..i];
  }

  lemma Skipped(db: Db, db': Db, i: nat, targets: seq<Target>)
    requires i < |StoredEntries(db)| && PartlyDeleted(db, db', i, targets)
    requires !Targeted(StoredEntries(db)[i], targets)
    ensures PartlyDeleted(db, db', i + 1, targets)
  {
    var all := StoredEntries(db);
    GoneStep(all, i, Exact, targets);
    GoneStep(all, i, Regex, targets);
  }

  lemma Removed(db: Db, db': Db, i: nat, targets: seq<Target>)
    requires i < |StoredEntries(db)| && PartlyDeleted(db, db', i, targets)
    requires Targeted(StoredEntries(db)[i], targets)
    ensures PartlyDeleted(db, Deleted(db', StoredEntries(db)[i].kind, StoredEntries(db)[i].row.id), i + 1, targets)
  {
    var all := StoredEntries(db);
    GoneStep(all, i, Exact, targets);
    GoneStep(all, i, Regex, targets);
    WithoutTwice(db.At(all[i].kind).rows, Gone(all[..i], all[i].kind, targets), {all[i].row.id});
  }

  lemma DeleteStep(db: Db, db': Db, i: nat, targets: seq<Target>)
    requires WellFormed(db) && WellFormed(db') && i < |StoredEntries(db)| && PartlyDeleted(db, db', i, targets)
    requires Targeted(StoredEntries(db)[i], targets)
    ensures var stored := StoredEntries(db)[i];
            && Has(db'.At(stored.kind).rows, stored.row)
            && PartlyDeleted(db, Deleted(db', stored.kind, stored.row.id), i + 1, targets)
            && Size(Deleted(db', stored.kind, stored.row.id)) == Size(db') - 1
  {
    var stored := StoredEntries(db)[i];
    NotYetGone(db, i, targets);
    Removed(db, db', i, targets);
    DeleteRemoves(db'.At(stored.kind).rows, db'.At(stored.kind).next, stored.row);
  }

  /** A finished batch delete leaves exactly the entries no target names, in their order. */
  lemma DeletesExactlyTheTargets(db: Db, kind: Kind, targets: seq<Target>)
    requires WellFormed(db)
    ensures Without(db.At(kind).rows, Gone(StoredEntries(db), kind, targets)) == Kept(db.At(kind).rows, kind, targets)
  {
    forall row | Has(db.At(kind).rows, row)
      ensures row.id in Gone(StoredEntries(db), kind, targets) <==> Targeted(Stored(kind, row), targets) {
      GoneIfTargeted(db, kind, row, targets);
    }
    KeptAgrees(db.At(kind).rows, Gone(StoredEntries(db), kind, targets), kind, targets);
  }

  lemma {:induction false} Position(rows: seq<Row>, row: Row) returns (i: nat)
    requires Has(rows, row)
    ensures i < |rows| && rows[i] == row
    decreases |rows|
  {
    if rows[|rows| - 1] == row {
      i := |rows| - 1;
    } else {
      i := Position(rows[..|rows| - 1], row);
    }
  }

  lemma GoneIfTargeted(db: Db, kind: Kind, row: Row, targets: seq<Target>)
    requires WellFormed(db) && Has(db.At(kind).rows, row)
    ensures row.id in Gone(StoredEntries(db), kind, targets) <==> Targeted(Stored(kind, row), targets)
  {
    var all := StoredEntries(db);
    var p := Position(db.At(kind).rows, row);
    var i := if kind == Exact then p else |db.exact.rows| + p;
    assert all[i] == Stored(kind, row);
    GoneExactly(all, kind, targets, row.id);
    if row.id in Gone(all, kind, targets) {
      var j :| 0 <= j < |all| && all[j].kind == kind && all[j].row.id == row.id && Targeted(all[j], targets);
      StoredDistinct(db, i, j);
    }
  }

  lemma {:induction false} KeptAgrees(rows: seq<Row>, gone: set<nat>, kind: Kind, targets: seq<Target>)
    requires forall row | Has(rows, row) :: row.id in gone <==> Targeted(Stored(kind, row), targets)
    ensures Without(rows, gone) == Kept(rows, kind, targets)
    decreases |rows|
  {
    if rows != [] {
      var front, last := rows[..|rows| - 1], rows[|rows| - 1];
      forall row | Has(front, row) ensures row.id in gone <==> Targeted(Stored(kind, row), targets) {
        assert Has(rows, row);
      }
      KeptAgrees(front, gone, kind, targets);
      assert Has(rows, last);
    }
  }

  /** Some target has this entry's item and list. */
  ghost predicate NamedBy(targets: seq<Target>, kind: Kind, entry: Entry) {
    exists i :: 0 <= i < |targets| && targets[i].item == entry.item && targets[i].list == DomainList(entry.action, kind)
  }

  lemma TargetedExactly(kind: Kind, row: Row, targets: seq<Target>)
    ensures Targeted(Stored(kind, row), targets) <==> NamedBy(targets, kind, row.entry)
  {
    if Targeted(Stored(kind, row), targets) {
      var target :| target in targets && target.list.kind == kind
                    && row.entry.Is(target.list.action, target.item);
      var i :| 0 <= i < |targets| && targets[i] == target;
    }
    if NamedBy(targets, kind, row.entry) {
      var i :| 0 <= i < |targets| && targets[i].item == row.entry.item
               && targets[i].list == DomainList(row.entry.action, kind);
      assert targets[i] in targets;
    }
  }

  lemma {:induction false} KeptHas(rows: seq<Row>, kind: Kind, targets: seq<Target>, row: Row)
    ensures Has(Kept(rows, kind, targets), row) <==> Has(rows, row) && !NamedBy(targets, kind, row.entry)
    decreases |rows|
  {
    if rows != [] {
      var front, last := rows[..|rows| - 1], rows[|rows| - 1];
      KeptHas(front, kind, targets, row);
      TargetedExactly(kind, last, targets);
      var rest := Kept(front, kind, targets);
      assert (rest + [last])[..|rest|] == rest;
    }
  }

  /** The rows whose item and list no target has are left, and no others. */
  ghost predicate LeavesUntargeted(db: Db, db': Db, targets: seq<Target>) {
    forall kind: Kind, row :: LeftExactly(db, db', kind, targets, row)
  }

  ghost predicate LeftExactly(db: Db, db': Db, kind: Kind, targets: seq<Target>, row: Row) {
    Has(db'.At(kind).rows, row) <==> Has(db.At(kind).rows, row) && !NamedBy(targets, kind, row.entry)
  }

  lemma RowLeft(db: Db, db': Db, kind: Kind, targets: seq<Target>, row: Row)
    requires WellFormed(db) && PartlyDeleted(db, db', |StoredEntries(db)|, targets)
    ensures LeftExactly(db, db', kind, targets, row)
  {
    assert StoredEntries(db)[..|StoredEntries(db)|] == StoredEntries(db);
    assert DeletedIn(db, db', kind, |StoredEntries(db)|, targets);
    DeletesExactlyTheTargets(db, kind, targets);
    KeptHas(db.At(kind).rows, kind, targets, row);
  }

  /** A batch delete that got through leaves exactly the rows no target names, still in the order of their ids. */
  lemma TargetsAreGone(db: Db, db': Db, targets: seq<Target>)
    requires WellFormed(db) && PartlyDeleted(db, db', |StoredEntries(db)|, targets)
    ensures LeavesUntargeted(db, db', targets)
    ensures Rising(db'.exact.rows, db.exact.next) && Rising(db'.regex.rows, db.regex.next)
  {
    forall kind: Kind, row ensures LeftExactly(db, db', kind, targets, row) {
      RowLeft(db, db', kind, targets, row);
    }
    var all := StoredEntries(db)[..|StoredEntries(db)|];
    WithoutKeepsIds(db.exact.rows, db.exact.next, Gone(all, Exact, targets));
    WithoutKeepsIds(db.regex.rows, db.regex.next, Gone(all, Regex, targets));
  }
}
