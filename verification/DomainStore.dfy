/** The write handlers of Pi-hole's four domain lists, one request at a time.
    Each repository call may fail, changing nothing; otherwise it changes one row. */
module DomainStore {
  import opened Ascii
  import opened Options

  import opened DomainAdds
  import opened DomainDeletes
  import opened DomainRequests
  import opened DomainTables

  const EMPTY_DB := Db(Table([], 0), Table([], 0))

  // ----- what a write did

  ghost function ShownAt(db: Db, kind: Kind): multiset<Entry> {
    Shown(db.At(kind).rows)
  }

  /** `before` left its table and `after` entered its own; every other entry is as it was. */
  ghost predicate Replaced(db: Db, db': Db, kind: Kind, before: Entry, kind': Kind, after: Entry) {
    ShownReplaced(db, db', kind, before, kind', after) && CopiesReplaced(db, db', kind, before, kind', after)
  }

  ghost predicate ShownReplaced(db: Db, db': Db, kind: Kind, before: Entry, kind': Kind, after: Entry) {
    && before in ShownAt(db, kind)
    && (forall k: Kind :: ShownAt(db', k) == Exchanged(ShownAt(db, k), k == kind, before, k == kind', after))
  }

  ghost function Exchanged(
    shown: multiset<Entry>, leaves: bool, before: Entry, enters: bool, after: Entry): multiset<Entry>
  {
    var kept := if leaves then shown - multiset{before} else shown;
    if enters then kept + multiset{after} else kept
  }

  ghost predicate CopiesReplaced(db: Db, db': Db, kind: Kind, before: Entry, kind': Kind, after: Entry) {
    forall list, item :: CopiesOf(db', list, item) ==
      CopiesOf(db, list, item) - One(list, item, kind, before) + One(list, item, kind', after)
  }

  ghost function One(list: DomainList, item: string, kind: Kind, entry: Entry): nat {
    if list.kind == kind && entry.Is(list.action, item) then 1 else 0
  }

  lemma RewriteReplaces(db: Db, kind: Kind, row: Row, entry: Entry)
    requires WellFormed(db) && Has(db.At(kind).rows, row)
    ensures Replaced(db, Updated(db, kind, row.id, entry), kind, row.entry, kind, entry)
  {
    UpdateReplaces(db.At(kind).rows, db.At(kind).next, row, entry);
    ShownHas(db.At(kind).rows, row);
    forall list, item ensures CopiesOf(Updated(db, kind, row.id, entry), list, item) ==
        CopiesOf(db, list, item) - One(list, item, kind, row.entry) + One(list, item, kind, entry) {
      UpdatedCopies(db, kind, row, entry, list, item);
    }
  }

  lemma MoveCopies(db: Db, row: Row, kind: Kind, kind': Kind, entry: Entry, list: DomainList, item: string)
    requires WellFormed(db) && Has(db.At(kind).rows, row) && kind != kind'
    requires WellFormed(Created(db, kind', entry))
    ensures CopiesOf(Deleted(Created(db, kind', entry), kind, row.id), list, item) ==
            CopiesOf(db, list, item) - One(list, item, kind, row.entry) + One(list, item, kind', entry)
  {
    CreatedCopies(db, kind', entry, list, item);
    DeletedCopies(Created(db, kind', entry), kind, row, list, item);
  }

  lemma MoveShown(db: Db, row: Row, kind: Kind, kind': Kind, entry: Entry)
    requires WellFormed(db) && Has(db.At(kind).rows, row) && kind != kind'
    ensures WellFormed(Created(db, kind', entry))
    ensures ShownReplaced(db, Deleted(Created(db, kind', entry), kind, row.id), kind, row.entry, kind', entry)
  {
    InsertAdds(db.At(kind'), entry, entry.action, entry.item);
    ShownHas(db.At(kind).rows, row);
    forall k: Kind ensures ShownAt(Deleted(Created(db, kind', entry), kind, row.id), k)
        == Exchanged(ShownAt(db, k), k == kind, row.entry, k == kind', entry) {
      if k == kind {
        DeleteRemoves(db.At(kind).rows, db.At(kind).next, row);
      }
    }
  }

  lemma MoveReplaces(db: Db, row: Row, kind: Kind, kind': Kind, entry: Entry)
    requires WellFormed(db) && Has(db.At(kind).rows, row) && kind != kind'
    ensures Replaced(db, Deleted(Created(db, kind', entry), kind, row.id), kind, row.entry, kind', entry)
  {
    MoveShown(db, row, kind, kind', entry);
    forall list, item ensures CopiesOf(Deleted(Created(db, kind', entry), kind, row.id), list, item) ==
        CopiesOf(db, list, item) - One(list, item, kind, row.entry) + One(list, item, kind', entry) {
      MoveCopies(db, row, kind, kind', entry, list, item);
    }
  }

  /** After a PUT that found its entry in another list: the item is in the target list, no
      other list or item changed, and the previous list still holds it exactly when it held
      it more than once. */
  lemma ReplacedMovesOneItem(db: Db, db': Db, from: DomainList, before: Entry, to: DomainList, after: Entry)
    requires Replaced(db, db', from.kind, before, to.kind, after)
    requires before.Is(from.action, before.item) && after.Is(to.action, before.item)
    requires Holds(db, from, before.item)
    ensures Holds(db', to, before.item)
    ensures from != to ==> (!Holds(db', from, before.item) <==> CopiesOf(db, from, before.item) == 1)
    ensures forall list, item :: item != before.item || (list != from && list != to) ==>
              CopiesOf(db', list, item) == CopiesOf(db, list, item)
  {}

  /** Blocking a service adds one deny entry per rule for the group, whatever other groups have. */
  ghost function ServiceBlocked(db: Db, domain: string, group: int): Db {
    Created(db, Exact, Entry(Deny, domain, group, None, true))
  }

  const DENY_EXACT := DomainList(Deny, Exact)
  const ALLOW_EXACT := DomainList(Allow, Exact)

  lemma BlockedTwiceIsHeldTwice(domain: string, g: int, h: int)
    ensures var db := ServiceBlocked(ServiceBlocked(EMPTY_DB, domain, g), domain, h);
            && WellFormed(db) && CopiesOf(db, DENY_EXACT, domain) == 2 && !Holds(db, ALLOW_EXACT, domain)
  {
    var first := ServiceBlocked(EMPTY_DB, domain, g);
    CreateAddsNoRepeatExactly(EMPTY_DB, Exact, Entry(Deny, domain, g, None, true));
    CreateAddsNoRepeatExactly(first, Exact, Entry(Deny, domain, h, None, true));
    CreatedCopies(EMPTY_DB, Exact, Entry(Deny, domain, g, None, true), DENY_EXACT, domain);
    CreatedCopies(first, Exact, Entry(Deny, domain, h, None, true), DENY_EXACT, domain);
    CreatedCopies(EMPTY_DB, Exact, Entry(Deny, domain, g, None, true), ALLOW_EXACT, domain);
    CreatedCopies(first, Exact, Entry(Deny, domain, h, None, true), ALLOW_EXACT, domain);
  }

  /** A service's rule blocked for two groups, then moved to the allow list by a PUT that
      succeeds: the deny list still holds it. */
  lemma MovedRuleStaysDenied(domain: string, g: int, h: int, db': Db, body: UpdateRequest)
    requires var db := ServiceBlocked(ServiceBlocked(EMPTY_DB, domain, g), domain, h);
             PutOutcome(db, db', domain, DENY_EXACT, ALLOW_EXACT, body, Ok(()))
    ensures Holds(db', ALLOW_EXACT, domain) && Holds(db', DENY_EXACT, domain)
  {
    var db := ServiceBlocked(ServiceBlocked(EMPTY_DB, domain, g), domain, h);
    BlockedTwiceIsHeldTwice(domain, g, h);
    FindExactly(db.exact.rows, Deny, domain);
    FindExactly(db.exact.rows, Allow, domain);
    var row := Lookup(db, DENY_EXACT, domain).value;
    ReplacedMovesOneItem(db, db', DENY_EXACT, row.entry, ALLOW_EXACT, Wanted(Allow, domain, body, row.entry.group));
  }

  /** The tables with a row's entry replaced, in its table or by one in the other table. */
  function Moved(db: Db, row: Row, kind: Kind, kind': Kind, after: Entry): Db {
    if kind == kind' then Updated(db, kind, row.id, after)
    else Deleted(Created(db, kind', after), kind, row.id)
  }

  /** What a PUT may leave behind, whatever calls fail. */
  ghost predicate PutOutcome(
    db: Db, db': Db, item: string, from: DomainList, to: DomainList, body: UpdateRequest,
    r: Result<(), DomainError>)
  {
    match Lookup(db, from, item)
    case None =>
      db' == if r.Ok? then Created(db, from.kind, Wanted(from.action, item, body, DEFAULT_GROUP_ID)) else db
    case Some(row) =>
      var after := Wanted(to.action, item, body, row.entry.group);
      if from != to && Lookup(db, to, item).Some? then
        r.Err? && db' == db
      else if r.Ok? then
        db' == Moved(db, row, from.kind, to.kind, after) && Replaced(db, db', from.kind, row.entry, to.kind, after)
      else
        db' == db || (from.kind != to.kind && db' == Created(db, to.kind, after))
  }

  /** The create before the delete keeps the item in its old list, and the delete leaves the new one. */
  lemma MoveNeverLoses(db: Db, row: Row, from: DomainList, to: DomainList, entry: Entry)
    requires WellFormed(db) && Has(db.At(from.kind).rows, row) && from.kind != to.kind
    requires row.entry.action == from.action && entry.Is(to.action, row.entry.item)
    ensures Holds(Created(db, to.kind, entry), to, row.entry.item)
    ensures Holds(Deleted(Created(db, to.kind, entry), from.kind, row.id), to, row.entry.item)
  {
    InsertAdds(db.At(to.kind), entry, entry.action, entry.item);
    CreatedCopies(db, to.kind, entry, to, row.entry.item);
    DeletedCopies(Created(db, to.kind, entry), from.kind, row, to, row.entry.item);
  }

  lemma RewriteNeverLoses(db: Db, row: Row, from: DomainList, to: DomainList, entry: Entry)
    requires WellFormed(db) && Has(db.At(from.kind).rows, row) && from.kind == to.kind
    requires row.entry.action == from.action && entry.Is(to.action, row.entry.item)
    ensures Holds(Updated(db, from.kind, row.id, entry), to, row.entry.item)
  {
    UpdatedCopies(db, from.kind, row, entry, to, row.entry.item);
    HasCopies(db.At(from.kind).rows, row);
  }

  // ----- batches

  function FiledAs(items: seq<string>, wrote: seq<bool>): Processed
    requires |items| == |wrote|
  {
    Processed(Select(items, wrote, true), Select(items, wrote, false))
  }

  /** The list gained exactly the written items, none of them twice. */
  ghost predicate BatchAdded(db: Db, db': Db, list: DomainList, items: seq<string>, like: Entry, wrote: seq<bool>)
    requires |items| == |wrote|
  {
    && Filed(Items(db.At(list.kind).rows, list.action), items, wrote)
    && db' == AddAll(db, list.kind, Select(items, wrote, true), like)
  }

  lemma BatchStep(
    db: Db, db': Db, list: DomainList, items: seq<string>, i: nat, like: Entry, wrote: seq<bool>, ok: bool)
    requires i < |items| && |wrote| == i && like.action == list.action
    requires BatchAdded(db, db', list, items[..i], like, wrote)
    requires ok ==> items[i] !in Items(db'.At(list.kind).rows, list.action)
    ensures FiledAs(items[..i + 1], wrote + [ok]) ==
            if ok then Processed(FiledAs(items[..i], wrote).success + [items[i]], FiledAs(items[..i], wrote).errors)
            else Processed(FiledAs(items[..i], wrote).success, FiledAs(items[..i], wrote).errors + [items[i]])
    ensures BatchAdded(db, if ok then Created(db', list.kind, like.(item := items[i])) else db', list,
                       items[..i + 1], like, wrote + [ok])
  {
    SelectStep(items, i, wrote, ok, true);
    SelectStep(items, i, wrote, ok, false);
    AddAllItems(db, list.kind, Select(items[..i], wrote, true), like);
    FiledStep(Items(db.At(list.kind).rows, list.action), items, i, wrote, ok);
    AddOneMore(db, list.kind, Select(items[..i], wrote, true), items[i], like);
  }

  /** The reply to a POST: a database error exactly when every item failed; any other
      error ended the request early or came from reading back what was written. */
  ghost predicate BatchReply(
    db: Db, db': Db, list: DomainList, items: seq<string>, like: Entry, wrote: seq<bool>,
    r: Result<Processed, CrudError>)
  {
    && |wrote| <= |items|
    && BatchAdded(db, db', list, items[..|wrote|], like, wrote)
    && (r == Err(DatabaseError) <==> |wrote| == |items| && true !in wrote)
    && (r.Ok? ==> |wrote| == |items| && r.value == FiledAs(items[..|wrote|], wrote))
    && r != Err(BadRequest) && r != Err(UriError)
  }

  // ----- exact entries are lowercase

  ghost predicate Lowered(db: Db) {
    forall e <- ShownAt(db, Exact) :: IsLower(e.item)
  }

  lemma CreatedLowered(db: Db, kind: Kind, entry: Entry)
    requires WellFormed(db)
    ensures Lowered(Created(db, kind, entry)) <==> Lowered(db) && (kind == Exact ==> IsLower(entry.item))
  {
    InsertAdds(db.At(kind), entry, entry.action, entry.item);
    if kind == Exact {
      assert entry in ShownAt(Created(db, kind, entry), Exact);
      forall e <- ShownAt(db, Exact) ensures e in ShownAt(Created(db, kind, entry), Exact) {}
    }
  }

  lemma ReplacedLowered(db: Db, db': Db, kind: Kind, before: Entry, kind': Kind, after: Entry)
    requires Lowered(db) && ShownReplaced(db, db', kind, before, kind', after)
    requires kind' == Exact ==> IsLower(after.item)
    ensures Lowered(db')
  {
    forall e <- ShownAt(db', Exact) ensures IsLower(e.item) {
      assert e in ShownAt(db, Exact) || (kind' == Exact && e == after);
    }
  }

  /** A PUT to a regex list naming an exact list as the previous one, for a missing item with a capital. */
  ghost predicate CreatesUnprepared(db: Db, item: string, from: DomainList, to: DomainList) {
    to.kind == Regex && from.kind == Exact && Lookup(db, from, item).None? && !IsLower(item)
  }

  /** Exact entries stay lowercase through every PUT but that one. */
  lemma PutLoweredExactly(
    db: Db, db': Db, item: string, from: DomainList, to: DomainList, body: UpdateRequest, r: Result<(), DomainError>)
    requires WellFormed(db) && Lowered(db) && PutOutcome(db, db', item, from, to, body, r)
    requires to.kind == Exact ==> IsLower(item)
    ensures Lowered(db') <==> !(CreatesUnprepared(db, item, from, to) && db' != db)
  {
    match Lookup(db, from, item) {
      case None =>
        CreatedLowered(db, from.kind, Wanted(from.action, item, body, DEFAULT_GROUP_ID));
      case Some(row) =>
        var after := Wanted(to.action, item, body, row.entry.group);
        CreatedLowered(db, to.kind, after);
        if Replaced(db, db', from.kind, row.entry, to.kind, after) {
          ReplacedLowered(db, db', from.kind, row.entry, to.kind, after);
        }
    }
  }

  /** A request's own PUT outcome; a body that names no list writes nothing. */
  ghost predicate PutReply(
    db: Db, db': Db, item: string, to: DomainList, body: UpdateRequest, r: Result<(), DomainError>)
  {
    match PreviousList(body, to)
    case Err(e) => r == Err(e) && db' == db
    case Ok(from) => PutOutcome(db, db', item, from, to, body, r)
  }

  ghost predicate PutsUnprepared(db: Db, item: string, to: DomainList, body: UpdateRequest) {
    PreviousList(body, to).Ok? && CreatesUnprepared(db, item, PreviousList(body, to).value, to)
  }

  lemma PutKeepsLowered(
    db: Db, db': Db, domain: string, item: string, to: DomainList, body: UpdateRequest, r: Result<(), DomainError>)
    requires WellFormed(db) && PutReply(db, db', item, to, body, r)
    requires item == if to.kind == Exact then Lower(domain) else domain
    ensures Lowered(db) ==> (Lowered(db') <==> !(PutsUnprepared(db, domain, to, body) && db' != db))
  {
    LowerIsLower(domain);
    if Lowered(db) && PreviousList(body, to).Ok? {
      PutLoweredExactly(db, db', item, PreviousList(body, to).value, to, body, r);
    }
  }

  const FROM_EXACT_DENY := UpdateRequest(Some("deny"), Some("exact"), None, None, None)

  lemma BodyNamesExactDeny(to: DomainList)
    ensures PreviousList(FROM_EXACT_DENY, to) == Ok(DomainList(Deny, Exact))
  {
    LowerIsLower("deny");
    LowerIsLower("exact");
    assert IsLower("deny") && IsLower("exact");
  }

  /** PUT /domains/deny/regex/A with `"type": "deny", "kind": "exact"` puts the exact entry "A" in an empty store. */
  lemma UppercaseCanBeStored(valid: string -> bool)
    ensures PrepareItem(['A'], Regex, valid) == Ok(['A'])
    ensures PreviousList(FROM_EXACT_DENY, DomainList(Deny, Regex)) == Ok(DomainList(Deny, Exact))
    ensures var empty := Db(Table([], 0), Table([], 0));
            && CreatesUnprepared(empty, ['A'], DomainList(Deny, Exact), DomainList(Deny, Regex))
            && Lowered(empty)
            && !Lowered(Created(empty, Exact, Wanted(Deny, ['A'], FROM_EXACT_DENY, DEFAULT_GROUP_ID)))
  {
    BodyNamesExactDeny(DomainList(Deny, Regex));
    CapitalA(FROM_EXACT_DENY);
  }

  lemma CapitalA(body: UpdateRequest)
    ensures var empty := Db(Table([], 0), Table([], 0));
            && CreatesUnprepared(empty, ['A'], DomainList(Deny, Exact), DomainList(Deny, Regex))
            && Lowered(empty)
            && !Lowered(Created(empty, Exact, Wanted(Deny, ['A'], body, DEFAULT_GROUP_ID)))
  {
    assert 'A' in ['A'];
    CreatedLowered(Db(Table([], 0), Table([], 0)), Exact, Wanted(Deny, ['A'], body, DEFAULT_GROUP_ID));
  }

  lemma {:induction false} DeletedLowered(rows: seq<Row>, gone: set<nat>)
    ensures Shown(Without(rows, gone)) <= Shown(rows)
    decreases |rows|
  {
    if rows != [] {
      var front, last := rows[..|rows| - 1], rows[|rows| - 1];
      DeletedLowered(front, gone);
      if last.id !in gone {
        assert Without(rows, gone)[..|Without(rows, gone)| - 1] == Without(front, gone);
      }
    }
  }

  lemma DeleteKeepsLowered(db: Db, kind: Kind, id: nat)
    requires Lowered(db)
    ensures Lowered(Deleted(db, kind, id))
  {
    DeletedLowered(db.exact.rows, {id});
  }

  /** The delete loop after `done` stored entries. */
  ghost predicate DeletingUpTo(db: Db, db': Db, done: nat, targets: seq<Target>, deleted: nat)
    requires done <= |StoredEntries(db)|
  {
    && PartlyDeleted(db, db', done, targets)
    && Size(db') + deleted == Size(db)
    && (Lowered(db) ==> Lowered(db'))
  }

  lemma DeletingStarts(db: Db, targets: seq<Target>)
    ensures DeletingUpTo(db, db, 0, targets, 0)
  {
    NothingDeleted(db, targets);
  }

  lemma DeletingStep(db: Db, db': Db, i: nat, targets: seq<Target>, deleted: nat)
    requires WellFormed(db) && WellFormed(db') && i < |StoredEntries(db)| && DeletingUpTo(db, db', i, targets, deleted)
    ensures var stored := StoredEntries(db)[i];
            if Targeted(stored, targets)
            then && Has(db'.At(stored.kind).rows, stored.row)
                 && DeletingUpTo(db, Deleted(db', stored.kind, stored.row.id), i + 1, targets, deleted + 1)
            else DeletingUpTo(db, db', i + 1, targets, deleted)
  {
    var stored := StoredEntries(db)[i];
    if Targeted(stored, targets) {
      DeleteStep(db, db', i, targets);
      if Lowered(db') {
        DeleteKeepsLowered(db', stored.kind, stored.row.id);
      }
    } else {
      Skipped(db, db', i, targets);
    }
  }

  lemma {:induction false} EachIsLower(items: seq<string>, valid: string -> bool)
    requires PrepareEach(items, Exact, valid).Ok?
    ensures forall item <- PrepareEach(items, Exact, valid).value :: IsLower(item)
    decreases |items|
  {
    if items != [] {
      EachIsLower(items[..|items| - 1], valid);
      LowerIsLower(items[|items| - 1]);
    }
  }

  lemma PreparedAreLower(items: seq<string>, kind: Kind, valid: string -> bool)
    requires PrepareItems(items, kind, valid).Ok? && kind == Exact
    ensures forall item <- PrepareItems(items, kind, valid).value :: IsLower(item)
  {
    EachIsLower(items, valid);
  }

  lemma {:induction false} AddAllLowered(db: Db, kind: Kind, names: seq<string>, like: Entry)
    requires WellFormed(db) && Lowered(db)
    requires kind == Exact ==> forall name <- names :: IsLower(name)
    ensures WellFormed(AddAll(db, kind, names, like)) && Lowered(AddAll(db, kind, names, like))
    decreases |names|
  {
    if names != [] {
      var front, entry := names[..|names| - 1], like.(item := names[|names| - 1]);
      assert names[|names| - 1] in names;
      AddAllLowered(db, kind, front, like);
      InsertAdds(AddAll(db, kind, front, like).At(kind), entry, entry.action, entry.item);
      CreatedLowered(AddAll(db, kind, front, like), kind, entry);
    }
  }

  lemma BatchLowered(db: Db, kind: Kind, items: seq<string>, wrote: seq<bool>, like: Entry)
    requires WellFormed(db) && Lowered(db) && |wrote| <= |items|
    requires kind == Exact ==> forall item <- items :: IsLower(item)
    ensures Lowered(AddAll(db, kind, Select(items[..|wrote|], wrote, true), like))
  {
    var written := Select(items[..|wrote|], wrote, true);
    if kind == Exact {
      forall name <- written ensures IsLower(name) {
        SelectFrom(items[..|wrote|], wrote, true, name);
      }
    }
    AddAllLowered(db, kind, written, like);
  }

  // ----- what a request may answer and leave behind

  /** A PUT to `to`: a refused item writes nothing, a failure maps to its reply, and exact
      entries stay lowercase but for the one unprepared create. */
  ghost predicate UpdateReply(
    db: Db, db': Db, domain: string, to: DomainList, body: UpdateRequest, valid: string -> bool,
    r: Result<Processed, CrudError>, written: Result<(), DomainError>)
  {
    && (match PrepareItem(domain, to.kind, valid)
        case Err(_) => r == Err(BadRequest) && db' == db
        case Ok(item) =>
          && PutReply(db, db', item, to, body, written)
          && (r.Ok? ==> written.Ok? && r.value == Processed([item], []))
          && (written.Err? ==>
                r == Err(if written.error.ServerError? then Domain(written.error) else DatabaseError)))
    && (Lowered(db) ==> (Lowered(db') <==> !(PutsUnprepared(db, domain, to, body) && db' != db)))
  }

  /** An item the PUT finds in its previous list is in one of the two lists ever after. */
  ghost predicate UpdateLosesNothing(
    since: History, history: History, domain: string, to: DomainList, body: UpdateRequest, valid: string -> bool)
  {
    match (PrepareItem(domain, to.kind, valid), PreviousList(body, to))
    case (Ok(item), Ok(from)) => Holds(since.db, from, item) ==> NeverLost(since, history, from, to, item)
    case _ => true
  }

  /** A POST to `list`: a bad item writes nothing, and exact entries stay lowercase. */
  ghost predicate CreateReply(
    db: Db, db': Db, list: DomainList, domains: seq<string>, like: Entry, valid: string -> bool, wrote: seq<bool>,
    r: Result<Processed, CrudError>)
  {
    && (match PrepareItems(domains, list.kind, valid)
        case Err(_) => r == Err(BadRequest) && db' == db
        case Ok(items) => BatchReply(db, db', list, items, like, wrote, r))
    && (Lowered(db) ==> Lowered(db'))
  }

  // ----- a PUT, told from its path, its body and the rows

  /** The table of `kind` got one new row, at its end. */
  ghost predicate Gained(db: Db, db': Db, kind: Kind, entry: Entry) {
    match kind
    case Exact => db'.exact.rows == db.exact.rows + [Row(db.exact.next, entry)] && db'.regex.rows == db.regex.rows
    case Regex => db'.regex.rows == db.regex.rows + [Row(db.regex.next, entry)] && db'.exact.rows == db.exact.rows
  }

  /** Row `i` of the table of `kind` now holds `entry`. */
  ghost predicate Rewritten(db: Db, db': Db, kind: Kind, i: nat, entry: Entry) {
    match kind
    case Exact =>
      && db'.regex.rows == db.regex.rows && i < |db.exact.rows|
      && db'.exact.rows == db.exact.rows[i := Row(db.exact.rows[i].id, entry)]
    case Regex =>
      && db'.exact.rows == db.exact.rows && i < |db.regex.rows|
      && db'.regex.rows == db.regex.rows[i := Row(db.regex.rows[i].id, entry)]
  }

  /** Row `i` of the table of `kind` is gone, and the other table got one new row, at its end. */
  ghost predicate Carried(db: Db, db': Db, kind: Kind, i: nat, entry: Entry) {
    match kind
    case Exact =>
      && i < |db.exact.rows| && db'.exact.rows == db.exact.rows[..i] + db.exact.rows[i + 1..]
      && db'.regex.rows == db.regex.rows + [Row(db.regex.next, entry)]
    case Regex =>
      && i < |db.regex.rows| && db'.regex.rows == db.regex.rows[..i] + db.regex.rows[i + 1..]
      && db'.exact.rows == db.exact.rows + [Row(db.exact.next, entry)]
  }

  /** `entry` is what the body describes for this list. */
  predicate Asked(entry: Entry, list: DomainList, item: string, body: UpdateRequest, otherwise: int) {
    Describes(entry, list.action, item, body.groups, body.comment, body.enabled, otherwise)
  }

  /** The PUT of an item `from` does not hold puts it there. */
  ghost predicate PutCreates(db: Db, db': Db, from: DomainList, item: string, body: UpdateRequest) {
    exists entry :: Asked(entry, from, item, body, 1) && Gained(db, db', from.kind, entry)
  }

  /** The PUT of an item whose first row in `from` is row `i` leaves it in `to`, in the same
      group unless the body names one. A failure leaves everything, or both rows. */
  ghost predicate PutMoves(
    db: Db, db': Db, from: DomainList, to: DomainList, i: nat, item: string, body: UpdateRequest, ok: bool)
    requires i < |db.At(from.kind).rows|
  {
    exists entry :: Asked(entry, to, item, body, db.At(from.kind).rows[i].entry.group)
      && (if from.kind == to.kind then
            if ok then Rewritten(db, db', from.kind, i, entry) else db' == db
          else
            if ok then Carried(db, db', from.kind, i, entry) else db' == db || Gained(db, db', to.kind, entry))
  }

  ghost predicate BothHold(db: Db, from: DomainList, to: DomainList, item: string) {
    && from != to
    && !NoneAt(db.At(from.kind).rows, from.action, item)
    && !NoneAt(db.At(to.kind).rows, to.action, item)
  }

  ghost predicate PutDone(
    db: Db, db': Db, from: DomainList, to: DomainList, item: string, body: UpdateRequest, ok: bool)
  {
    && (NoneAt(db.At(from.kind).rows, from.action, item) ==>
          if ok then PutCreates(db, db', from, item, body) else db' == db)
    && (forall i: nat :: FirstAt(db.At(from.kind).rows, i, from.action, item) ==>
          PutMoves(db, db', from, to, i, item, body, ok))
    && (BothHold(db, from, to, item) ==> !ok && db' == db)
  }

  /** No list but these two changed. */
  ghost predicate OthersKept(db: Db, db': Db, from: DomainList, to: DomainList) {
    forall kind: Kind, entry: Entry ::
      DomainList(entry.action, kind) != from && DomainList(entry.action, kind) != to ==>
        ShownAt(db', kind)[entry] == ShownAt(db, kind)[entry]
  }

  lemma CreatedIsGained(db: Db, kind: Kind, entry: Entry)
    ensures Gained(db, Created(db, kind, entry), kind, entry)
  {}

  lemma MovedRows(db: Db, kind: Kind, kind': Kind, i: nat, entry: Entry)
    requires WellFormed(db) && i < |db.At(kind).rows|
    ensures var db' := Moved(db, db.At(kind).rows[i], kind, kind', entry);
            if kind == kind' then Rewritten(db, db', kind, i, entry) else Carried(db, db', kind, i, entry)
  {
    UpdateAt(db.At(kind).rows, db.At(kind).next, i, entry);
    WithoutAt(db.At(kind).rows, db.At(kind).next, i);
  }

  lemma WantedIsAsked(list: DomainList, item: string, body: UpdateRequest, otherwise: int)
    ensures Asked(Wanted(list.action, item, body, otherwise), list, item, body, otherwise)
  {}

  lemma FirstIsUnique(rows: seq<Row>, action: Action, item: string, i: nat, j: nat)
    requires FirstAt(rows, i, action, item) && FirstAt(rows, j, action, item)
    ensures i == j
  {}

  lemma PutMissingIsDone(
    db: Db, db': Db, item: string, from: DomainList, to: DomainList, body: UpdateRequest, r: Result<(), DomainError>)
    requires PutOutcome(db, db', item, from, to, body, r) && Lookup(db, from, item).None?
    ensures PutDone(db, db', from, to, item, body, r.Ok?)
  {
    var _ := FindIsFirst(db.At(from.kind).rows, from.action, item);
    WantedIsAsked(from, item, body, DEFAULT_GROUP_ID);
    CreatedIsGained(db, from.kind, Wanted(from.action, item, body, DEFAULT_GROUP_ID));
  }

  lemma PutFoundMoves(
    db: Db, db': Db, item: string, from: DomainList, to: DomainList, body: UpdateRequest, r: Result<(), DomainError>,
    i: nat)
    requires WellFormed(db) && PutOutcome(db, db', item, from, to, body, r)
    requires i < |db.At(from.kind).rows| && Lookup(db, from, item) == Some(db.At(from.kind).rows[i])
    ensures PutMoves(db, db', from, to, i, item, body, r.Ok?)
  {
    var group := db.At(from.kind).rows[i].entry.group;
    var after := Wanted(to.action, item, body, group);
    WantedIsAsked(to, item, body, group);
    MovedRows(db, from.kind, to.kind, i, after);
    CreatedIsGained(db, to.kind, after);
  }

  lemma PutIsDone(
    db: Db, db': Db, item: string, from: DomainList, to: DomainList, body: UpdateRequest, r: Result<(), DomainError>)
    requires WellFormed(db) && PutOutcome(db, db', item, from, to, body, r)
    ensures PutDone(db, db', from, to, item, body, r.Ok?)
  {
    var n := FindIsFirst(db.At(from.kind).rows, from.action, item);
    var _ := FindIsFirst(db.At(to.kind).rows, to.action, item);
    if Lookup(db, from, item).None? {
      PutMissingIsDone(db, db', item, from, to, body, r);
    } else {
      PutFoundMoves(db, db', item, from, to, body, r, n);
      forall i: nat | FirstAt(db.At(from.kind).rows, i, from.action, item)
        ensures PutMoves(db, db', from, to, i, item, body, r.Ok?) {
        FirstIsUnique(db.At(from.kind).rows, from.action, item, i, n);
      }
    }
  }

  lemma CreateKeepsOthers(db: Db, kind: Kind, entry: Entry, from: DomainList, to: DomainList)
    requires WellFormed(db) && (DomainList(entry.action, kind) == from || DomainList(entry.action, kind) == to)
    ensures OthersKept(db, Created(db, kind, entry), from, to)
  {
    InsertAdds(db.At(kind), entry, entry.action, entry.item);
    forall k: Kind, e: Entry | DomainList(e.action, k) != from && DomainList(e.action, k) != to
      ensures ShownAt(Created(db, kind, entry), k)[e] == ShownAt(db, k)[e] {
      if k == kind {
        OneMore(ShownAt(db, k), entry, e);
      }
    }
  }

  lemma OneMore(shown: multiset<Entry>, entry: Entry, other: Entry)
    requires entry != other
    ensures (shown + multiset{entry})[other] == shown[other] == (shown - multiset{entry})[other]
  {}

  lemma ReplaceKeepsOthers(db: Db, db': Db, from: DomainList, before: Entry, to: DomainList, after: Entry)
    requires ShownReplaced(db, db', from.kind, before, to.kind, after)
    requires before.action == from.action && after.action == to.action
    ensures OthersKept(db, db', from, to)
  {
    forall k: Kind, e: Entry | DomainList(e.action, k) != from && DomainList(e.action, k) != to
      ensures ShownAt(db', k)[e] == ShownAt(db, k)[e] {
      ExchangeSpares(ShownAt(db, k), k == from.kind, before, k == to.kind, after, e);
    }
  }

  lemma ExchangeSpares(
    shown: multiset<Entry>, leaves: bool, before: Entry, enters: bool, after: Entry, other: Entry)
    requires leaves ==> other != before
    requires enters ==> other != after
    ensures Exchanged(shown, leaves, before, enters, after)[other] == shown[other]
  {}

  /** A PUT changes no list but the one it addresses and the one its entry was in. */
  lemma PutKeepsOthers(
    db: Db, db': Db, item: string, from: DomainList, to: DomainList, body: UpdateRequest, r: Result<(), DomainError>)
    requires WellFormed(db) && PutOutcome(db, db', item, from, to, body, r)
    ensures OthersKept(db, db', from, to)
  {
    FindExactly(db.At(from.kind).rows, from.action, item);
    if db' != db {
      match Lookup(db, from, item) {
        case None => CreateKeepsOthers(db, from.kind, Wanted(from.action, item, body, DEFAULT_GROUP_ID), from, to);
        case Some(row) =>
          var after := Wanted(to.action, item, body, row.entry.group);
          if r.Ok? {
            ReplaceKeepsOthers(db, db', from, row.entry, to, after);
          } else {
            CreateKeepsOthers(db, to.kind, after, from, to);
          }
      }
    }
  }

  /** A PUT that succeeds leaves the item in the list it addresses, or, when the list its
      body names did not hold it, in that one. */
  lemma PutLeavesItem(db: Db, db': Db, from: DomainList, to: DomainList, item: string, body: UpdateRequest)
    requires PutDone(db, db', from, to, item, body, true)
    ensures var list := if NoneAt(db.At(from.kind).rows, from.action, item) then from else to;
            !NoneAt(db'.At(list.kind).rows, list.action, item)
  {
    if NoneAt(db.At(from.kind).rows, from.action, item) {
      assert IsAt(db'.At(from.kind).rows, |db.At(from.kind).rows|, from.action, item);
    } else {
      var i := FindIsFirst(db.At(from.kind).rows, from.action, item);
      assert PutMoves(db, db', from, to, i, item, body, true);
      var n := if from.kind == to.kind then i else |db.At(to.kind).rows|;
      assert IsAt(db'.At(to.kind).rows, n, to.action, item);
    }
  }

  /** Without a type and a kind in its body a PUT changes no list but its own, and a PUT
      that succeeds leaves the item there. */
  lemma PutStaysInItsList(
    db: Db, db': Db, from: DomainList, to: DomainList, item: string, body: UpdateRequest, ok: bool)
    requires Absent(body.domainType) && Absent(body.kind) && NamesPrevious(body, to, from)
    requires PutDone(db, db', from, to, item, body, ok) && OthersKept(db, db', from, to)
    ensures forall kind: Kind, entry: Entry :: DomainList(entry.action, kind) != to ==>
              ShownAt(db', kind)[entry] == ShownAt(db, kind)[entry]
    ensures ok ==> !NoneAt(db'.At(to.kind).rows, to.action, item)
  {
    if ok {
      PutLeavesItem(db, db', from, to, item, body);
    }
  }

  /** What the write of a PUT did: nothing, unless the body names a list. */
  ghost predicate ReplaceDone(db: Db, db': Db, item: string, to: DomainList, body: UpdateRequest, ok: bool) {
    && (forall from :: NamesPrevious(body, to, from) ==>
          PutDone(db, db', from, to, item, body, ok) && OthersKept(db, db', from, to))
    && ((forall from :: !NamesPrevious(body, to, from)) ==> !ok && db' == db)
  }

  lemma ReplaceIsDone(
    db: Db, db': Db, item: string, to: DomainList, body: UpdateRequest, r: Result<(), DomainError>)
    requires WellFormed(db) && PutReply(db, db', item, to, body, r)
    ensures ReplaceDone(db, db', item, to, body, r.Ok?)
  {
    forall from | NamesPrevious(body, to, from)
      ensures PutDone(db, db', from, to, item, body, r.Ok?) && OthersKept(db, db', from, to) {
      PreviousExactly(body, to, from);
      PutIsDone(db, db', item, from, to, body, r);
      PutKeepsOthers(db, db', item, from, to, body, r);
    }
    if PreviousList(body, to).Ok? {
      PreviousExactly(body, to, PreviousList(body, to).value);
    }
  }

  /** The lists and the item of a PUT, told from its path and its body. */
  ghost predicate UpdateNames(
    domainType: string, kind: string, domain: string, body: UpdateRequest, valid: string -> bool,
    from: DomainList, to: DomainList, item: string)
  {
    && PathNames(domainType, kind, to) && Prepared(domain, to.kind, valid, item)
    && NamesPrevious(body, to, from)
  }

  /** What a PUT did, whatever calls failed: nothing, unless path, body and item are in order. */
  ghost predicate UpdateDone(
    db: Db, db': Db, domainType: string, kind: string, domain: string, body: UpdateRequest, valid: string -> bool,
    ok: bool)
  {
    && (forall from, to, item :: UpdateNames(domainType, kind, domain, body, valid, from, to, item) ==>
          PutDone(db, db', from, to, item, body, ok) && OthersKept(db, db', from, to))
    && ((forall from, to, item :: !UpdateNames(domainType, kind, domain, body, valid, from, to, item)) ==> db' == db)
  }

  /** The path and the body decide what the handler's own reading of them leads to. */
  lemma UpdateIsDone(
    db: Db, db': Db, domainType: string, kind: string, domain: string, body: UpdateRequest, valid: string -> bool,
    r: Result<Processed, CrudError>, written: Result<(), DomainError>)
    requires WellFormed(db)
    requires match ListNamed(domainType, kind)
             case None => db' == db
             case Some(to) => UpdateReply(db, db', domain, to, body, valid, r, written)
    ensures UpdateDone(db, db', domainType, kind, domain, body, valid, written.Ok?)
  {
    forall from, to, item | UpdateNames(domainType, kind, domain, body, valid, from, to, item)
      ensures PutDone(db, db', from, to, item, body, written.Ok?) && OthersKept(db, db', from, to) {
      PathNamesExactly(domainType, kind, to);
      PrepareExactly(domain, to.kind, valid, item);
      PreviousExactly(body, to, from);
      PutIsDone(db, db', item, from, to, body, written);
      PutKeepsOthers(db, db', item, from, to, body, written);
    }
    if ListNamed(domainType, kind).Some? {
      var to := ListNamed(domainType, kind).value;
      NamedUpdate(domainType, kind, to, domain, body, valid);
    }
  }

  lemma NamedUpdate(
    domainType: string, kind: string, to: DomainList, domain: string, body: UpdateRequest, valid: string -> bool)
    requires ListNamed(domainType, kind) == Some(to)
    ensures PrepareItem(domain, to.kind, valid).Ok? && PreviousList(body, to).Ok? ==>
              UpdateNames(domainType, kind, domain, body, valid, PreviousList(body, to).value, to,
                          PrepareItem(domain, to.kind, valid).value)
  {
    PathNamesExactly(domainType, kind, to);
    if PrepareItem(domain, to.kind, valid).Ok? && PreviousList(body, to).Ok? {
      PrepareExactly(domain, to.kind, valid, PrepareItem(domain, to.kind, valid).value);
      PreviousExactly(body, to, PreviousList(body, to).value);
    }
  }

  lemma PathAndBodyDecide(
    domainType: string, kind: string, groups: Option<seq<int>>, comment: Option<string>, enabled: Option<bool>)
    ensures forall list, like ::
              PathNames(domainType, kind, list) && Describes(like, list.action, "", groups, comment, enabled, 1) ==>
                ListNamed(domainType, kind) == Some(list) && like == NewEntry(list.action, groups, comment, enabled)
  {
    forall list, like
      | PathNames(domainType, kind, list) && Describes(like, list.action, "", groups, comment, enabled, 1)
      ensures ListNamed(domainType, kind) == Some(list) && like == NewEntry(list.action, groups, comment, enabled) {
      PathNamesExactly(domainType, kind, list);
      DescribesExactly(like, list.action, "", groups, comment, enabled, 1);
    }
  }

  // ----- the store and its handlers

  /** What one repository call changes: one row. */
  datatype Write =
    | Creating(kind: Kind, entry: Entry)
    | Updating(kind: Kind, id: nat, entry: Entry)
    | Deleting(kind: Kind, id: nat)

  function Written(db: Db, write: Write): Db {
    match write
    case Creating(kind, entry) => Created(db, kind, entry)
    case Updating(kind, id, entry) => Updated(db, kind, id, entry)
    case Deleting(kind, id) => Deleted(db, kind, id)
  }

  /** Every state the tables have been in; the latest is the current one. */
  datatype History = First(db: Db) | Then(earlier: History, write: Write, db: Db)

  /** The history extends `since`, and no state after it repeats an item its list did not
      already repeat. */
  ghost predicate NoRepeatSince(since: History, history: History) {
    history == since ||
    (&& history.Then?
     && AddsNoRepeat(history.earlier.db, history.db)
     && NoRepeatSince(since, history.earlier))
  }

  lemma {:induction false} NoRepeatFurther(since: History, middle: History, history: History)
    requires NoRepeatSince(since, middle) && NoRepeatSince(middle, history)
    ensures NoRepeatSince(since, history)
    decreases history
  {
    if history != middle {
      NoRepeatFurther(since, middle, history.earlier);
    }
  }

  /** The history extends `since`, and in every state after it the item is in one of the two lists. */
  ghost predicate NeverLost(since: History, history: History, from: DomainList, to: DomainList, item: string) {
    history == since ||
    (&& history.Then?
     && (Holds(history.db, from, item) || Holds(history.db, to, item))
     && NeverLost(since, history.earlier, from, to, item))
  }

  /** No state is skipped: each is one write after the one before it. */
  ghost predicate Stepwise(history: History) {
    history.Then? ==> Stepwise(history.earlier) && history.db == Written(history.earlier.db, history.write)
  }

  /** No list held an item twice in any state from `since` on. */
  ghost predicate SoundSince(since: History, history: History) {
    NoDuplicates(history.db) && (history != since ==> history.Then? && SoundSince(since, history.earlier))
  }

  /** So once no list holds an item twice, none ever does again, at any instant of any
      sequence of requests. */
  lemma {:induction false} ListsStaySound(since: History, history: History)
    requires NoRepeatSince(since, history) && NoDuplicates(since.db)
    ensures SoundSince(since, history)
    decreases history
  {
    if history != since {
      ListsStaySound(since, history.earlier);
      NoRepeatKeepsLists(history.earlier.db, history.db);
    }
  }

  class DomainStore {
    var db: Db
    ghost var history: History

    ghost predicate Valid()
      reads this
    {
      WellFormed(db) && history.db == db && Stepwise(history)
    }

    /** The tables as other parts of the program left them. */
    constructor (db: Db)
      requires WellFormed(db)
      ensures Valid() && this.db == db && history == First(db)
    {
      this.db := db;
      history := First(db);
    }

    // --- the repository

    method FindEntry(list: DomainList, item: string) returns (r: Result<Option<Row>, DomainError>)
      ensures r.Ok? ==> r.value == Lookup(db, list, item)
    {
      if * {
        r := Err(ServerError("read failed"));
      } else {
        r := Ok(Lookup(db, list, item));
      }
    }

    method Readable() returns (r: Result<(), DomainError>) {
      var failure: Option<DomainError> := *;
      r := if failure.Some? then Err(failure.value) else Ok(());
    }

    method Create(kind: Kind, entry: Entry) returns (r: Result<(), DomainError>)
      requires Valid()
      modifies this
      ensures Valid()
      ensures db == if r.Ok? then Created(old(db), kind, entry) else old(db)
      ensures history == if r.Ok? then Then(old(history), Creating(kind, entry), db) else old(history)
    {
      var failure: Option<DomainError> := *;
      if failure.Some? {
        return Err(failure.value);
      }
      InsertAdds(db.At(kind), entry, entry.action, entry.item);
      db := Created(db, kind, entry);
      history := Then(history, Creating(kind, entry), db);
      r := Ok(());
    }

    method Update(kind: Kind, id: nat, entry: Entry) returns (r: Result<(), DomainError>)
      requires Valid()
      modifies this
      ensures Valid()
      ensures db == if r.Ok? then Updated(old(db), kind, id, entry) else old(db)
      ensures history == if r.Ok? then Then(old(history), Updating(kind, id, entry), db) else old(history)
    {
      var failure: Option<DomainError> := *;
      if failure.Some? {
        return Err(failure.value);
      }
      UpdateKeepsIds(db.At(kind).rows, db.At(kind).next, id, entry);
      db := Updated(db, kind, id, entry);
      history := Then(history, Updating(kind, id, entry), db);
      r := Ok(());
    }

    method Delete(kind: Kind, id: nat) returns (r: Result<(), DomainError>)
      requires Valid()
      modifies this
      ensures Valid()
      ensures db == if r.Ok? then Deleted(old(db), kind, id) else old(db)
      ensures history == if r.Ok? then Then(old(history), Deleting(kind, id), db) else old(history)
    {
      var failure: Option<DomainError> := *;
      if failure.Some? {
        return Err(failure.value);
      }
      WithoutKeepsIds(db.At(kind).rows, db.At(kind).next, {id});
      db := Deleted(db, kind, id);
      history := Then(history, Deleting(kind, id), db);
      r := Ok(());
    }

    // --- PUT

    /** Whatever calls fail: what the body names decides what the PUT does. */
    method ReplaceEntry(item: string, to: DomainList, body: UpdateRequest) returns (r: Result<(), DomainError>)
      requires Valid()
      modifies this
      ensures Valid() && NoRepeatSince(old(history), history)
      ensures PreviousList(body, to).Err? ==> r == Err(PreviousList(body, to).error) && db == old(db)
      ensures PreviousList(body, to).Ok? ==> PutOutcome(old(db), db, item, PreviousList(body, to).value, to, body, r)
      ensures PreviousList(body, to).Ok? && Holds(old(db), PreviousList(body, to).value, item) ==>
                NeverLost(old(history), history, PreviousList(body, to).value, to, item)
      ensures ReplaceDone(old(db), db, item, to, body, r.Ok?)
    {
      r := WriteReplacement(item, to, body);
      ReplaceIsDone(old(db), db, item, to, body, r);
    }

    method WriteReplacement(item: string, to: DomainList, body: UpdateRequest) returns (r: Result<(), DomainError>)
      requires Valid()
      modifies this
      ensures Valid() && NoRepeatSince(old(history), history)
      ensures PreviousList(body, to).Err? ==> r == Err(PreviousList(body, to).error) && db == old(db)
      ensures PreviousList(body, to).Ok? ==> PutOutcome(old(db), db, item, PreviousList(body, to).value, to, body, r)
      ensures PreviousList(body, to).Ok? && Holds(old(db), PreviousList(body, to).value, item) ==>
                NeverLost(old(history), history, PreviousList(body, to).value, to, item)
    {
      var previous := PreviousList(body, to);
      if previous.Err? {
        return Err(previous.error);
      }
      var from := previous.value;
      var found := FindEntry(from, item);
      FindExactly(db.At(from.kind).rows, from.action, item);
      if found.Err? {
        return Err(found.error);
      }
      if found.value.None? {
        r := AddEntry(from, Wanted(from.action, item, body, DEFAULT_GROUP_ID));
        return;
      }
      var existing := found.value.value;
      if from != to {
        var there := FindEntry(to, item);
        if there.Err? {
          return Err(there.error);
        }
        FindExactly(db.At(to.kind).rows, to.action, item);
        if there.value.Some? {
          return Err(AlreadyExists(item));
        }
      }
      var entry := Wanted(to.action, item, body, existing.entry.group);
      if from.kind == to.kind {
        r := RewriteEntry(existing, from, to, entry);
      } else {
        r := MoveEntry(existing, from, to, entry);
      }
    }

    /** Creates an item its list does not hold. */
    method AddEntry(list: DomainList, entry: Entry) returns (r: Result<(), DomainError>)
      requires Valid() && entry.action == list.action && !Holds(db, list, entry.item)
      modifies this
      ensures Valid() && NoRepeatSince(old(history), history)
      ensures db == if r.Ok? then Created(old(db), list.kind, entry) else old(db)
      ensures history == if r.Ok? then Then(old(history), Creating(list.kind, entry), db) else old(history)
    {
      CreateAddsNoRepeatExactly(db, list.kind, entry);
      r := Create(list.kind, entry);
    }

    /** The update in place, for two lists of one table. */
    method RewriteEntry(row: Row, from: DomainList, to: DomainList, entry: Entry) returns (r: Result<(), DomainError>)
      requires Valid() && from.kind == to.kind && Has(db.At(from.kind).rows, row)
      requires row.entry.action == from.action && entry.Is(to.action, row.entry.item)
      requires from == to || !Holds(db, to, row.entry.item)
      modifies this
      ensures Valid() && NoRepeatSince(old(history), history)
      ensures db == if r.Ok? then Moved(old(db), row, from.kind, to.kind, entry) else old(db)
      ensures r.Ok? ==> Replaced(old(db), db, from.kind, row.entry, to.kind, entry)
      ensures NeverLost(old(history), history, from, to, row.entry.item)
    {
      UpdateAddsNoRepeat(db, from.kind, row, entry);
      RewriteReplaces(db, from.kind, row, entry);
      RewriteNeverLoses(db, row, from, to, entry);
      r := Update(from.kind, row.id, entry);
    }

    /** The create and delete, for two lists in different tables. */
    method MoveEntry(row: Row, from: DomainList, to: DomainList, entry: Entry) returns (r: Result<(), DomainError>)
      requires Valid() && from.kind != to.kind && Has(db.At(from.kind).rows, row)
      requires row.entry.action == from.action && entry.Is(to.action, row.entry.item)
      requires !Holds(db, to, row.entry.item)
      modifies this
      ensures Valid() && NoRepeatSince(old(history), history)
      ensures r.Ok? ==> db == Moved(old(db), row, from.kind, to.kind, entry)
      ensures r.Ok? ==> Replaced(old(db), db, from.kind, row.entry, to.kind, entry)
      ensures r.Err? ==> db == old(db) || db == Created(old(db), to.kind, entry)
      ensures NeverLost(old(history), history, from, to, row.entry.item)
    {
      MoveNeverLoses(db, row, from, to, entry);
      r := AddEntry(to, entry);
      if r.Err? {
        return;
      }
      r := RemoveEntry(from.kind, row);
      if r.Ok? {
        MoveReplaces(old(db), row, from.kind, to.kind, entry);
      }
    }

    method RemoveEntry(kind: Kind, row: Row) returns (r: Result<(), DomainError>)
      requires Valid() && Has(db.At(kind).rows, row)
      modifies this
      ensures Valid() && NoRepeatSince(old(history), history)
      ensures db == if r.Ok? then Deleted(old(db), kind, row.id) else old(db)
      ensures history == if r.Ok? then Then(old(history), Deleting(kind, row.id), db) else old(history)
    {
      DeleteAddsNoRepeat(db, kind, row);
      r := Delete(kind, row.id);
    }

    // --- DELETE

    /** The delete loop over the tables as `since` left them: `deleted` entries went among the first `done`. */
    ghost predicate DeletedSince(since: History, done: nat, targets: seq<Target>, deleted: nat)
      reads this
    {
      && Valid() && WellFormed(since.db) && NoRepeatSince(since, history)
      && done <= |StoredEntries(since.db)| && DeletingUpTo(since.db, db, done, targets, deleted)
    }

    /** One turn of the delete loop; returns how many entries went. */
    method DeleteStored(
      stored: Stored, targets: seq<Target>, ghost since: History, ghost i: nat, ghost deleted: nat)
      returns (r: Result<nat, DomainError>)
      requires DeletedSince(since, i, targets, deleted)
      requires i < |StoredEntries(since.db)| && stored == StoredEntries(since.db)[i]
      modifies this
      ensures if r.Ok? then DeletedSince(since, i + 1, targets, deleted + r.value)
              else DeletedSince(since, i, targets, deleted)
    {
      ghost var db0, before := since.db, history;
      DeletingStep(db0, db, i, targets, deleted);
      if !Targeted(stored, targets) {
        return Ok(0);
      }
      var result := RemoveEntry(stored.kind, stored.row);
      NoRepeatFurther(since, before, history);
      r := if result.Err? then Err(result.error) else Ok(1);
    }

    /** The delete loop over a snapshot; `deleted` entries went among the first `done`. */
    method DeleteEach(stored: seq<Stored>, targets: seq<Target>)
      returns (error: Option<DomainError>, deleted: nat, ghost done: nat)
      requires Valid() && stored == StoredEntries(db)
      modifies this
      ensures DeletedSince(old(history), done, targets, deleted)
      ensures error.None? ==> done == |stored|
    {
      ghost var since := history;
      DeletingStarts(db, targets);
      error, deleted, done := None, 0, 0;
      for i := 0 to |stored|
        invariant done == i && DeletedSince(since, done, targets, deleted)
      {
        var result := DeleteStored(stored[i], targets, since, done, deleted);
        if result.Err? {
          error := Some(result.error);
          break;
        }
        deleted, done := deleted + result.value, done + 1;
      }
    }

    /** `done` counts the stored entries the loop got past. */
    method DeleteEntries(targets: seq<Target>) returns (r: Result<nat, DomainError>, ghost done: nat)
      requires Valid()
      modifies this
      ensures Valid() && NoRepeatSince(old(history), history)
      ensures done <= |StoredEntries(old(db))| && PartlyDeleted(old(db), db, done, targets)
      ensures r.Ok? ==> done == |StoredEntries(old(db))| && Size(db) + r.value == Size(old(db))
      ensures r.Ok? ==> LeavesUntargeted(old(db), db, targets)
      ensures Lowered(old(db)) ==> Lowered(db)
    {
      var readable := Readable();
      if readable.Err? {
        DeletingStarts(db, targets);
        return Err(readable.error), 0;
      }
      var error, deleted;
      ghost var db0 := db;
      error, deleted, done := DeleteEach(StoredEntries(db), targets);
      r := if error.Some? then Err(error.value) else Ok(deleted);
      if r.Ok? {
        TargetsAreGone(db0, db, targets);
      }
    }

    // --- requests

    method WriteUpdate(domain: string, to: DomainList, body: UpdateRequest, valid: string -> bool)
      returns (r: Result<Processed, CrudError>, ghost written: Result<(), DomainError>)
      requires Valid()
      modifies this
      ensures Valid() && NoRepeatSince(old(history), history)
      ensures UpdateReply(old(db), db, domain, to, body, valid, r, written)
      ensures UpdateLosesNothing(old(history), history, domain, to, body, valid)
    {
      var prepared := PrepareItem(domain, to.kind, valid);
      if prepared.Err? {
        return Err(prepared.error), Ok(());
      }
      ghost var db0 := db;
      var result := ReplaceEntry(prepared.value, to, body);
      written := result;
      PutKeepsLowered(db0, db, domain, prepared.value, to, body, result);
      r := ReplyToWrite(prepared.value, result);
    }

    /** The reply to one write, read back when it succeeded. */
    method ReplyToWrite(item: string, result: Result<(), DomainError>) returns (r: Result<Processed, CrudError>)
      ensures r.Ok? ==> result.Ok? && r.value == Processed([item], [])
      ensures result.Err? ==> r == Err(if result.error.ServerError? then Domain(result.error) else DatabaseError)
    {
      var processed := Record(Processed([], []), item, result);
      if processed.Err? {
        return Err(Domain(processed.error));
      }
      var status := WriteStatus(processed.value);
      if status.Err? {
        return Err(status.error);
      }
      var readBack := Readable();
      r := if readBack.Err? then Err(Domain(readBack.error)) else Ok(processed.value);
    }

    method UpdateDomain(
      domainType: string, kind: string, domain: string, body: UpdateRequest, valid: string -> bool)
      returns (r: Result<Processed, CrudError>, ghost written: Result<(), DomainError>)
      requires Valid()
      modifies this
      ensures Valid() && NoRepeatSince(old(history), history)
      ensures match ListNamed(domainType, kind)
              case None => r == Err(UriError) && db == old(db)
              case Some(to) =>
                && UpdateReply(old(db), db, domain, to, body, valid, r, written)
                && UpdateLosesNothing(old(history), history, domain, to, body, valid)
      ensures UpdateDone(old(db), db, domainType, kind, domain, body, valid, written.Ok?)
      ensures r.Ok? ==> written.Ok?
    {
      ghost var db0 := db;
      PreciseExactly(domainType, kind);
      var to := PreciseList(domainType, kind);
      if to.None? {
        UpdateIsDone(db0, db, domainType, kind, domain, body, valid, Err(UriError), Ok(()));
        return Err(UriError), Ok(());
      }
      r, written := WriteUpdate(domain, to.value, body, valid);
      UpdateIsDone(db0, db, domainType, kind, domain, body, valid, r, written);
    }

    /** One item of a batch: a repeat is refused, anything else is created. */
    method AddItem(list: DomainList, item: string, like: Entry, present: set<string>)
      returns (r: Result<(), DomainError>)
      requires Valid() && like.action == list.action
      requires present == Items(db.At(list.kind).rows, list.action)
      modifies this
      ensures Valid() && NoRepeatSince(old(history), history)
      ensures r.Ok? ==> item !in present
      ensures db == if r.Ok? then Created(old(db), list.kind, like.(item := item)) else old(db)
      ensures Items(db.At(list.kind).rows, list.action) == present + if r.Ok? then {item} else {}
    {
      ItemsExactly(db.At(list.kind).rows, list.action, item);
      ItemsAfter(db.At(list.kind), like.(item := item));
      if item in present {
        r := Err(AlreadyExists(item));
      } else {
        r := AddEntry(list, like.(item := item));
      }
    }

    /** `wrote` tells of each item the loop got past whether it was added. */
    method AddItems(list: DomainList, items: seq<string>, like: Entry)
      returns (r: Result<Processed, DomainError>, ghost wrote: seq<bool>)
      requires Valid() && like.action == list.action
      modifies this
      ensures Valid() && NoRepeatSince(old(history), history)
      ensures |wrote| <= |items|
      ensures BatchAdded(old(db), db, list, items[..|wrote|], like, wrote)
      ensures r.Ok? ==> |wrote| == |items| && r.value == FiledAs(items, wrote)
      ensures r.Err? ==> |wrote| < |items| && r.error.ServerError?
    {
      ghost var db0 := db;
      var present := Items(db.At(list.kind).rows, list.action);
      var processed := Processed([], []);
      wrote := [];
      for i := 0 to |items|
        invariant Valid() && NoRepeatSince(old(history), history) && |wrote| == i
        invariant present == Items(db.At(list.kind).rows, list.action)
        invariant processed == FiledAs(items[..i], wrote)
        invariant BatchAdded(db0, db, list, items[..i], like, wrote)
      {
        ghost var before, middle := db, history;
        var result := AddItem(list, items[i], like, present);
        NoRepeatFurther(old(history), middle, history);
        if result.Ok? {
          present := present + {items[i]};
        }
        var recorded := Record(processed, items[i], result);
        if recorded.Err? {
          return Err(recorded.error), wrote;
        }
        BatchStep(db0, before, list, items, i, like, wrote, result.Ok?);
        processed := recorded.value;
        wrote := wrote + [result.Ok?];
      }
      assert items[..|items|] == items;
      r := Ok(processed);
    }

    method WriteBatch(
      list: DomainList, domains: seq<string>, groups: Option<seq<int>>, comment: Option<string>,
      enabled: Option<bool>, valid: string -> bool)
      returns (r: Result<Processed, CrudError>, ghost wrote: seq<bool>)
      requires Valid()
      modifies this
      ensures Valid() && NoRepeatSince(old(history), history)
      ensures CreateReply(old(db), db, list, domains, NewEntry(list.action, groups, comment, enabled), valid, wrote, r)
    {
      wrote := [];
      var prepared := PrepareItems(domains, list.kind, valid);
      var like := NewEntry(list.action, groups, comment, enabled);
      if prepared.Err? {
        return Err(BadRequest), [];
      }
      var items := prepared.value;
      var readable := Readable();
      if readable.Err? {
        return Err(Domain(readable.error)), [];
      }
      ghost var db0 := db;
      var processed;
      processed, wrote := AddItems(list, items, like);
      assert items[..|items|] == items;
      NothingWritten(items[..|wrote|], wrote);
      if Lowered(db0) {
        if list.kind == Exact {
          PreparedAreLower(domains, list.kind, valid);
        }
        BatchLowered(db0, list.kind, items, wrote, like);
      }
      if processed.Err? {
        return Err(Domain(processed.error)), wrote;
      }
      var status := WriteStatus(processed.value);
      if status.Err? {
        return Err(status.error), wrote;
      }
      var readBack := Readable();
      r := if readBack.Err? then Err(Domain(readBack.error)) else Ok(processed.value);
    }

    method CreateDomain(
      domainType: string, kind: string, domains: seq<string>, groups: Option<seq<int>>, comment: Option<string>,
      enabled: Option<bool>, valid: string -> bool)
      returns (r: Result<Processed, CrudError>, ghost wrote: seq<bool>)
      requires Valid()
      modifies this
      ensures Valid() && NoRepeatSince(old(history), history)
      ensures match ListNamed(domainType, kind)
              case None => r == Err(UriError) && db == old(db)
              case Some(list) =>
                CreateReply(old(db), db, list, domains, NewEntry(list.action, groups, comment, enabled),
                            valid, wrote, r)
      ensures forall list, like ::
                PathNames(domainType, kind, list)
                && Describes(like, list.action, "", groups, comment, enabled, 1) ==>
                  CreateReply(old(db), db, list, domains, like, valid, wrote, r)
    {
      PathAndBodyDecide(domainType, kind, groups, comment, enabled);
      PreciseExactly(domainType, kind);
      var list := PreciseList(domainType, kind);
      if list.None? {
        return Err(UriError), [];
      }
      r, wrote := WriteBatch(list.value, domains, groups, comment, enabled, valid);
    }
  }
}
