/** The two tables behind Pi-hole's four domain lists: exact entries are managed
    domains, regex entries are regex filters, and each table holds both the allow
    and the deny list. */
module DomainTables {
  import opened Options

  datatype Action = Allow | Deny
  datatype Kind = Exact | Regex
  datatype DomainList = DomainList(action: Action, kind: Kind)

  datatype Entry = Entry(action: Action, item: string, group: int, comment: Option<string>, enabled: bool)
  {
    predicate Is(action': Action, item': string) {
      action == action' && item == item'
    }
  }

  datatype Row = Row(id: nat, entry: Entry)

  /** Rows in the order of their ids, and the id the next one gets. */
  datatype Table = Table(rows: seq<Row>, next: nat)

  datatype Db = Db(exact: Table, regex: Table)
  {
    function At(kind: Kind): Table {
      if kind == Exact then exact else regex
    }

    function With(kind: Kind, table: Table): (db: Db)
      ensures db.At(kind) == table
      ensures forall other: Kind :: other != kind ==> db.At(other) == At(other)
    {
      if kind == Exact then this.(exact := table) else this.(regex := table)
    }
  }

  // ----- what a table holds

  /** The first entry of an item in one list. */
  function Find(rows: seq<Row>, action: Action, item: string): Option<Row> {
    if rows == [] then None
    else
      var earlier := Find(rows[..|rows| - 1], action, item);
      var last := rows[|rows| - 1];
      if earlier.Some? then earlier else if last.entry.Is(action, item) then Some(last) else None
  }

  /** How often one list holds an item. */
  ghost function Copies(rows: seq<Row>, action: Action, item: string): nat {
    if rows == [] then 0
    else Copies(rows[..|rows| - 1], action, item) + if rows[|rows| - 1].entry.Is(action, item) then 1 else 0
  }

  /** The entries a reader sees, without their ids. */
  ghost function Shown(rows: seq<Row>): multiset<Entry> {
    if rows == [] then multiset{}
    else Shown(rows[..|rows| - 1]) + multiset{rows[|rows| - 1].entry}
  }

  /** Ids rise and stay below `bound`. */
  ghost predicate Rising(rows: seq<Row>, bound: nat) {
    rows == [] || (rows[|rows| - 1].id < bound && Rising(rows[..|rows| - 1], rows[|rows| - 1].id))
  }

  ghost predicate Has(rows: seq<Row>, row: Row) {
    rows != [] && (rows[|rows| - 1] == row || Has(rows[..|rows| - 1], row))
  }

  lemma {:induction false} FindExactly(rows: seq<Row>, action: Action, item: string)
    ensures Find(rows, action, item).Some? <==> Copies(rows, action, item) > 0
    ensures Find(rows, action, item).Some? ==>
              Has(rows, Find(rows, action, item).value) && Find(rows, action, item).value.entry.Is(action, item)
    decreases |rows|
  {
    if rows != [] {
      FindExactly(rows[..|rows| - 1], action, item);
    }
  }

  lemma {:induction false} HasCopies(rows: seq<Row>, row: Row)
    requires Has(rows, row)
    ensures Copies(rows, row.entry.action, row.entry.item) > 0
    decreases |rows|
  {
    if rows[|rows| - 1] != row {
      HasCopies(rows[..|rows| - 1], row);
    }
  }

  lemma {:induction false} IdBelow(rows: seq<Row>, bound: nat, row: Row)
    requires Rising(rows, bound) && Has(rows, row)
    ensures row.id < bound
    decreases |rows|
  {
    if rows[|rows| - 1] != row {
      IdBelow(rows[..|rows| - 1], rows[|rows| - 1].id, row);
    }
  }

  lemma {:induction false} RisingRelaxed(rows: seq<Row>, bound: nat, bound': nat)
    requires Rising(rows, bound) && bound <= bound'
    ensures Rising(rows, bound')
  {}

  // ----- one row changes

  function Insert(table: Table, entry: Entry): Table {
    Table(table.rows + [Row(table.next, entry)], table.next + 1)
  }

  function Update(rows: seq<Row>, id: nat, entry: Entry): (updated: seq<Row>)
    ensures |updated| == |rows|
  {
    if rows == [] then []
    else
      var last := rows[|rows| - 1];
      Update(rows[..|rows| - 1], id, entry) + [if last.id == id then Row(id, entry) else last]
  }

  /** The rows left when the ids in `gone` are deleted. */
  function Without(rows: seq<Row>, gone: set<nat>): seq<Row> {
    if rows == [] then []
    else
      var rest := Without(rows[..|rows| - 1], gone);
      if rows[|rows| - 1].id in gone then rest else rest + [rows[|rows| - 1]]
  }

  lemma InsertAdds(table: Table, entry: Entry, action: Action, item: string)
    requires Rising(table.rows, table.next)
    ensures Rising(Insert(table, entry).rows, Insert(table, entry).next)
    ensures Copies(Insert(table, entry).rows, action, item)
         == Copies(table.rows, action, item) + if entry.Is(action, item) then 1 else 0
    ensures Shown(Insert(table, entry).rows) == Shown(table.rows) + multiset{entry}
  {
    assert (table.rows + [Row(table.next, entry)])[..|table.rows|] == table.rows;
  }

  lemma {:induction false} UpdateMisses(rows: seq<Row>, bound: nat, id: nat, entry: Entry)
    requires Rising(rows, bound) && bound <= id
    ensures Update(rows, id, entry) == rows
    decreases |rows|
  {
    if rows != [] {
      UpdateMisses(rows[..|rows| - 1], rows[|rows| - 1].id, id, entry);
    }
  }

  lemma {:induction false} UpdateKeepsIds(rows: seq<Row>, bound: nat, id: nat, entry: Entry)
    requires Rising(rows, bound)
    ensures Rising(Update(rows, id, entry), bound)
    decreases |rows|
  {
    if rows != [] {
      var front := rows[..|rows| - 1];
      UpdateKeepsIds(front, rows[|front|].id, id, entry);
      assert Update(rows, id, entry)[..|front|] == Update(front, id, entry);
    }
  }

  lemma OneExchanged(shown: multiset<Entry>, last: Entry, before: Entry, after: Entry)
    requires before in shown
    ensures shown - multiset{before} + multiset{after} + multiset{last}
         == shown + multiset{last} - multiset{before} + multiset{after}
  {}

  /** An update of one row replaces exactly its entry. */
  lemma {:induction false} UpdateReplaces(rows: seq<Row>, bound: nat, row: Row, entry: Entry)
    requires Rising(rows, bound) && Has(rows, row)
    ensures Shown(Update(rows, row.id, entry)) == Shown(rows) - multiset{row.entry} + multiset{entry}
    decreases |rows|
  {
    var front, last := rows[..|rows| - 1], rows[|rows| - 1];
    assert Update(rows, row.id, entry)[..|front|] == Update(front, row.id, entry);
    if last == row {
      UpdateMisses(front, last.id, row.id, entry);
    } else {
      IdBelow(front, last.id, row);
      UpdateReplaces(front, last.id, row, entry);
      ShownHas(front, row);
      OneExchanged(Shown(front), last.entry, row.entry, entry);
    }
  }

  lemma {:induction false} WithoutNone(rows: seq<Row>, bound: nat, id: nat)
    requires Rising(rows, bound) && bound <= id
    ensures Without(rows, {id}) == rows
    decreases |rows|
  {
    if rows != [] {
      WithoutNone(rows[..|rows| - 1], rows[|rows| - 1].id, id);
    }
  }

  lemma {:induction false} WithoutKeepsIds(rows: seq<Row>, bound: nat, gone: set<nat>)
    requires Rising(rows, bound)
    ensures Rising(Without(rows, gone), bound)
    decreases |rows|
  {
    if rows != [] {
      var front, last := rows[..|rows| - 1], rows[|rows| - 1];
      WithoutKeepsIds(front, last.id, gone);
      if last.id !in gone {
        assert Without(rows, gone)[..|Without(rows, gone)| - 1] == Without(front, gone);
      } else {
        RisingRelaxed(Without(front, gone), last.id, bound);
      }
    }
  }

  lemma OneRemoved(shown: multiset<Entry>, last: Entry, gone: Entry)
    requires gone in shown
    ensures shown - multiset{gone} + multiset{last} == shown + multiset{last} - multiset{gone}
  {}

  lemma {:induction false} DeleteKeepsLater(rows: seq<Row>, bound: nat, row: Row)
    requires Rising(rows, bound) && Has(rows, row) && rows[|rows| - 1] != row
    ensures Has(rows[..|rows| - 1], row)
    ensures Without(rows, {row.id}) == Without(rows[..|rows| - 1], {row.id}) + [rows[|rows| - 1]]
  {
    IdBelow(rows[..|rows| - 1], rows[|rows| - 1].id, row);
  }

  /** A delete by id takes away exactly one entry. */
  lemma {:induction false} DeleteRemoves(rows: seq<Row>, bound: nat, row: Row)
    requires Rising(rows, bound) && Has(rows, row)
    ensures Shown(Without(rows, {row.id})) == Shown(rows) - multiset{row.entry}
    ensures |Without(rows, {row.id})| == |rows| - 1
    decreases |rows|
  {
    var front, last := rows[..|rows| - 1], rows[|rows| - 1];
    if last == row {
      WithoutNone(front, last.id, row.id);
    } else {
      DeleteKeepsLater(rows, bound, row);
      DeleteRemoves(front, last.id, row);
      ShownHas(front, row);
      OneRemoved(Shown(front), last.entry, row.entry);
      var rest := Without(front, {row.id});
      assert (rest + [last])[..|rest|] == rest;
    }
  }

  lemma {:induction false} ShownHas(rows: seq<Row>, row: Row)
    requires Has(rows, row)
    ensures row.entry in Shown(rows)
    decreases |rows|
  {
    if rows[|rows| - 1] != row {
      ShownHas(rows[..|rows| - 1], row);
    }
  }

  // ----- the copies one row changes leave

  lemma {:induction false} UpdateCopies(
    rows: seq<Row>, bound: nat, row: Row, entry: Entry, action: Action, item: string)
    requires Rising(rows, bound) && Has(rows, row)
    ensures Copies(Update(rows, row.id, entry), action, item) + (if row.entry.Is(action, item) then 1 else 0)
         == Copies(rows, action, item) + if entry.Is(action, item) then 1 else 0
    decreases |rows|
  {
    var front, last := rows[..|rows| - 1], rows[|rows| - 1];
    assert Update(rows, row.id, entry)[..|front|] == Update(front, row.id, entry);
    if last == row {
      UpdateMisses(front, last.id, row.id, entry);
    } else {
      IdBelow(front, last.id, row);
      UpdateCopies(front, last.id, row, entry, action, item);
    }
  }

  lemma {:induction false} DeleteCopies(rows: seq<Row>, bound: nat, row: Row, action: Action, item: string)
    requires Rising(rows, bound) && Has(rows, row)
    ensures Copies(Without(rows, {row.id}), action, item) + (if row.entry.Is(action, item) then 1 else 0)
         == Copies(rows, action, item)
    decreases |rows|
  {
    var front, last := rows[..|rows| - 1], rows[|rows| - 1];
    if last == row {
      WithoutNone(front, last.id, row.id);
    } else {
      IdBelow(front, last.id, row);
      DeleteCopies(front, last.id, row, action, item);
      assert Without(rows, {row.id})[..|Without(rows, {row.id})| - 1] == Without(front, {row.id});
    }
  }

  /** Deleting in two steps deletes both sets of ids. */
  lemma {:induction false} WithoutTwice(rows: seq<Row>, gone: set<nat>, more: set<nat>)
    ensures Without(Without(rows, gone), more) == Without(rows, gone + more)
    decreases |rows|
  {
    if rows != [] {
      var front, last := rows[..|rows| - 1], rows[|rows| - 1];
      WithoutTwice(front, gone, more);
      if last.id !in gone {
        assert Without(rows, gone)[..|Without(rows, gone)| - 1] == Without(front, gone);
      }
    }
  }

  // ----- the same by positions

  predicate IsAt(rows: seq<Row>, i: int, action: Action, item: string) {
    0 <= i < |rows| && rows[i].entry.action == action && rows[i].entry.item == item
  }

  predicate NoneAt(rows: seq<Row>, action: Action, item: string) {
    forall i :: 0 <= i < |rows| ==> !IsAt(rows, i, action, item)
  }

  predicate FirstAt(rows: seq<Row>, i: nat, action: Action, item: string) {
    IsAt(rows, i, action, item) && forall j :: 0 <= j < i ==> !IsAt(rows, j, action, item)
  }

  lemma {:induction false} FindIsFirst(rows: seq<Row>, action: Action, item: string) returns (i: nat)
    ensures Find(rows, action, item).None? <==> NoneAt(rows, action, item)
    ensures Find(rows, action, item).Some? ==>
              FirstAt(rows, i, action, item) && rows[i] == Find(rows, action, item).value
    decreases |rows|
  {
    i := 0;
    if rows != [] {
      var front := rows[..|rows| - 1];
      i := FindIsFirst(front, action, item);
      forall j | 0 <= j < |front| ensures IsAt(rows, j, action, item) == IsAt(front, j, action, item) {
        assert front[j] == rows[j];
      }
      assert NoneAt(rows, action, item) <==> NoneAt(front, action, item) && !IsAt(rows, |front|, action, item);
      if Find(front, action, item).None? {
        i := |front|;
      }
    }
  }

  lemma CopiesNone(rows: seq<Row>, action: Action, item: string)
    ensures Copies(rows, action, item) == 0 <==> NoneAt(rows, action, item)
  {
    FindExactly(rows, action, item);
    var _ := FindIsFirst(rows, action, item);
  }

  ghost predicate OnceAt(rows: seq<Row>, action: Action, item: string) {
    forall i, j :: 0 <= i < j < |rows| ==> !(IsAt(rows, i, action, item) && IsAt(rows, j, action, item))
  }

  lemma {:induction false} CopiesOnce(rows: seq<Row>, action: Action, item: string)
    ensures Copies(rows, action, item) <= 1 <==> OnceAt(rows, action, item)
    decreases |rows|
  {
    if rows != [] {
      var n := |rows| - 1;
      var front := rows[..n];
      CopiesOnce(front, action, item);
      CopiesNone(front, action, item);
      assert forall i :: 0 <= i < n ==> front[i] == rows[i];
      assert forall i :: 0 <= i < n ==> IsAt(front, i, action, item) == IsAt(rows, i, action, item);
      assert OnceAt(rows, action, item) <==>
             OnceAt(front, action, item) && (IsAt(rows, n, action, item) ==> NoneAt(front, action, item));
    }
  }

  lemma {:induction false} UpdateAt(rows: seq<Row>, bound: nat, i: nat, entry: Entry)
    requires Rising(rows, bound) && i < |rows|
    ensures Update(rows, rows[i].id, entry) == rows[i := Row(rows[i].id, entry)]
    decreases |rows|
  {
    var n := |rows| - 1;
    if i == n {
      UpdateMisses(rows[..n], rows[n].id, rows[n].id, entry);
    } else {
      HasAt(rows[..n], i);
      IdBelow(rows[..n], rows[n].id, rows[i]);
      UpdateAt(rows[..n], rows[n].id, i, entry);
    }
  }

  lemma {:induction false} WithoutAt(rows: seq<Row>, bound: nat, i: nat)
    requires Rising(rows, bound) && i < |rows|
    ensures Without(rows, {rows[i].id}) == rows[..i] + rows[i + 1..]
    decreases |rows|
  {
    var n := |rows| - 1;
    if i == n {
      WithoutNone(rows[..n], rows[n].id, rows[n].id);
    } else {
      HasAt(rows[..n], i);
      IdBelow(rows[..n], rows[n].id, rows[i]);
      WithoutAt(rows[..n], rows[n].id, i);
      assert rows[i + 1..] == rows[..n][i + 1..] + [rows[n]];
    }
  }

  lemma {:induction false} HasAt(rows: seq<Row>, i: nat)
    requires i < |rows|
    ensures Has(rows, rows[i])
    decreases |rows|
  {
    if i < |rows| - 1 {
      HasAt(rows[..|rows| - 1], i);
    }
  }

  // ----- the database

  ghost predicate WellFormed(db: Db) {
    Rising(db.exact.rows, db.exact.next) && Rising(db.regex.rows, db.regex.next)
  }

  ghost function CopiesOf(db: Db, list: DomainList, item: string): nat {
    Copies(db.At(list.kind).rows, list.action, item)
  }

  /** No list holds an item twice. */
  ghost predicate NoDuplicates(db: Db) {
    forall list, item :: CopiesOf(db, list, item) <= 1
  }

  /** No two rows of one table share an action and an item. */
  ghost predicate AllDiffer(rows: seq<Row>) {
    forall i, j :: 0 <= i < j < |rows| ==>
      rows[i].entry.action != rows[j].entry.action || rows[i].entry.item != rows[j].entry.item
  }

  lemma NoDuplicatesExactly(db: Db)
    ensures NoDuplicates(db) <==> AllDiffer(db.exact.rows) && AllDiffer(db.regex.rows)
  {
    if NoDuplicates(db) {
      HeldOnceDiffer(db, Exact);
      HeldOnceDiffer(db, Regex);
    }
    if AllDiffer(db.exact.rows) && AllDiffer(db.regex.rows) {
      forall list, item ensures CopiesOf(db, list, item) <= 1 {
        DifferHeldOnce(db, list, item);
      }
    }
  }

  lemma DifferHeldOnce(db: Db, list: DomainList, item: string)
    requires AllDiffer(db.exact.rows) && AllDiffer(db.regex.rows)
    ensures CopiesOf(db, list, item) <= 1
  {
    var rows := db.At(list.kind).rows;
    assert AllDiffer(rows) && OnceAt(rows, list.action, item);
    CopiesOnce(rows, list.action, item);
  }

  lemma HeldOnceDiffer(db: Db, kind: Kind)
    requires NoDuplicates(db)
    ensures AllDiffer(db.At(kind).rows)
  {
    var rows := db.At(kind).rows;
    forall i, j | 0 <= i < j < |rows|
      ensures rows[i].entry.action != rows[j].entry.action || rows[i].entry.item != rows[j].entry.item {
      var entry := rows[i].entry;
      assert CopiesOf(db, DomainList(entry.action, kind), entry.item) <= 1;
      CopiesOnce(rows, entry.action, entry.item);
      assert !(IsAt(rows, i, entry.action, entry.item) && IsAt(rows, j, entry.action, entry.item));
    }
  }

  ghost predicate Holds(db: Db, list: DomainList, item: string) {
    CopiesOf(db, list, item) > 0
  }

  function Lookup(db: Db, list: DomainList, item: string): Option<Row> {
    Find(db.At(list.kind).rows, list.action, item)
  }

  function Created(db: Db, kind: Kind, entry: Entry): Db {
    db.With(kind, Insert(db.At(kind), entry))
  }

  function Updated(db: Db, kind: Kind, id: nat, entry: Entry): Db {
    db.With(kind, db.At(kind).(rows := Update(db.At(kind).rows, id, entry)))
  }

  function Deleted(db: Db, kind: Kind, id: nat): Db {
    db.With(kind, db.At(kind).(rows := Without(db.At(kind).rows, {id})))
  }

  lemma CreatedCopies(db: Db, kind: Kind, entry: Entry, list: DomainList, item: string)
    requires WellFormed(db)
    ensures CopiesOf(Created(db, kind, entry), list, item)
         == CopiesOf(db, list, item) + if list.kind == kind && entry.Is(list.action, item) then 1 else 0
  {
    InsertAdds(db.At(kind), entry, list.action, item);
  }

  lemma UpdatedCopies(db: Db, kind: Kind, row: Row, entry: Entry, list: DomainList, item: string)
    requires WellFormed(db) && Has(db.At(kind).rows, row)
    ensures CopiesOf(Updated(db, kind, row.id, entry), list, item)
         == CopiesOf(db, list, item)
          - (if list.kind == kind && row.entry.Is(list.action, item) then 1 else 0)
          + (if list.kind == kind && entry.Is(list.action, item) then 1 else 0)
  {
    UpdateCopies(db.At(kind).rows, db.At(kind).next, row, entry, list.action, item);
  }

  lemma DeletedCopies(db: Db, kind: Kind, row: Row, list: DomainList, item: string)
    requires WellFormed(db) && Has(db.At(kind).rows, row)
    ensures CopiesOf(Deleted(db, kind, row.id), list, item)
         == CopiesOf(db, list, item) - if list.kind == kind && row.entry.Is(list.action, item) then 1 else 0
  {
    DeleteCopies(db.At(kind).rows, db.At(kind).next, row, list.action, item);
  }

  /** No list holds an item more often than before, unless it holds it once. */
  ghost predicate AddsNoRepeat(db: Db, db': Db) {
    forall list, item :: CopiesOf(db', list, item) <= 1 || CopiesOf(db', list, item) <= CopiesOf(db, list, item)
  }

  lemma NoRepeatKeepsLists(db: Db, db': Db)
    requires AddsNoRepeat(db, db') && NoDuplicates(db)
    ensures NoDuplicates(db')
  {
    forall list, item ensures CopiesOf(db', list, item) <= 1 {
      assert CopiesOf(db, list, item) <= 1;
    }
  }

  /** A create repeats no item exactly when its list did not hold it. */
  lemma CreateAddsNoRepeatExactly(db: Db, kind: Kind, entry: Entry)
    requires WellFormed(db)
    ensures WellFormed(Created(db, kind, entry))
    ensures AddsNoRepeat(db, Created(db, kind, entry)) <==> !Holds(db, DomainList(entry.action, kind), entry.item)
  {
    InsertAdds(db.At(kind), entry, entry.action, entry.item);
    CreatedCopies(db, kind, entry, DomainList(entry.action, kind), entry.item);
    if !Holds(db, DomainList(entry.action, kind), entry.item) {
      forall list, item ensures CopiesOf(Created(db, kind, entry), list, item) <= 1
          || CopiesOf(Created(db, kind, entry), list, item) <= CopiesOf(db, list, item) {
        CreatedCopies(db, kind, entry, list, item);
      }
    }
  }

  /** A create keeps the lists free of duplicates exactly when the item was missing. */
  lemma CreateKeepsListsExactly(db: Db, kind: Kind, entry: Entry)
    requires WellFormed(db) && NoDuplicates(db)
    ensures NoDuplicates(Created(db, kind, entry)) <==> !Holds(db, DomainList(entry.action, kind), entry.item)
  {
    CreateAddsNoRepeatExactly(db, kind, entry);
    CreatedCopies(db, kind, entry, DomainList(entry.action, kind), entry.item);
    if AddsNoRepeat(db, Created(db, kind, entry)) {
      NoRepeatKeepsLists(db, Created(db, kind, entry));
    }
  }

  /** Moving a row to another list of its table repeats no item when the item is not there yet. */
  lemma UpdateAddsNoRepeat(db: Db, kind: Kind, row: Row, entry: Entry)
    requires WellFormed(db) && Has(db.At(kind).rows, row) && entry.item == row.entry.item
    requires entry.action == row.entry.action || !Holds(db, DomainList(entry.action, kind), entry.item)
    ensures WellFormed(Updated(db, kind, row.id, entry)) && AddsNoRepeat(db, Updated(db, kind, row.id, entry))
  {
    UpdateKeepsIds(db.At(kind).rows, db.At(kind).next, row.id, entry);
    forall list, item ensures CopiesOf(Updated(db, kind, row.id, entry), list, item) <= 1
        || CopiesOf(Updated(db, kind, row.id, entry), list, item) <= CopiesOf(db, list, item) {
      UpdatedCopies(db, kind, row, entry, list, item);
    }
  }

  lemma DeleteAddsNoRepeat(db: Db, kind: Kind, row: Row)
    requires WellFormed(db) && Has(db.At(kind).rows, row)
    ensures WellFormed(Deleted(db, kind, row.id)) && AddsNoRepeat(db, Deleted(db, kind, row.id))
  {
    WithoutKeepsIds(db.At(kind).rows, db.At(kind).next, {row.id});
    forall list, item ensures CopiesOf(Deleted(db, kind, row.id), list, item) <= CopiesOf(db, list, item) {
      DeletedCopies(db, kind, row, list, item);
    }
  }
}
