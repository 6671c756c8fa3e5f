/** Batch adds to one of the four domain lists: which items are filed as written, and
    what the tables hold afterwards. */
module DomainAdds {
  import opened DomainTables

  // ----- the items of a list

  function Items(rows: seq<Row>, action: Action): set<string> {
    if rows == [] then {}
    else
      var entry := rows[|rows| - 1].entry;
      Items(rows[..|rows| - 1], action) + if entry.action == action then {entry.item} else {}
  }

  lemma {:induction false} ItemsExactly(rows: seq<Row>, action: Action, item: string)
    ensures item in Items(rows, action) <==> Copies(rows, action, item) > 0
    decreases |rows|
  {
    if rows != [] {
      ItemsExactly(rows[..|rows| - 1], action, item);
    }
  }

  lemma ItemsAfter(table: Table, entry: Entry)
    ensures Items(Insert(table, entry).rows, entry.action) == Items(table.rows, entry.action) + {entry.item}
  {
    assert Insert(table, entry).rows[..|table.rows|] == table.rows;
  }

  // ----- what was filed

  /** The items whose write went as `which` says, in request order. */
  function Select(items: seq<string>, wrote: seq<bool>, which: bool): seq<string>
    requires |items| == |wrote|
  {
    if items == [] then []
    else
      var front := Select(items[..|items| - 1], wrote[..|items| - 1], which);
      if wrote[|items| - 1] == which then front + [items[|items| - 1]] else front
  }

  lemma SelectStep(items: seq<string>, i: nat, wrote: seq<bool>, ok: bool, which: bool)
    requires i < |items| && |wrote| == i
    ensures Select(items[..i + 1], wrote + [ok], which) ==
            if ok == which then Select(items[..i], wrote, which) + [items[i]] else Select(items[..i], wrote, which)
  {
    assert items[..i + 1][..i] == items[..i] && (wrote + [ok])[..i] == wrote;
  }

  /** Only items neither stored before nor written earlier in the batch were written. */
  ghost predicate Filed(present: set<string>, items: seq<string>, wrote: seq<bool>)
    requires |items| == |wrote|
  {
    items == [] ||
      (var n := |items| - 1;
       && Filed(present, items[..n], wrote[..n])
       && (wrote[n] ==> items[n] !in present && items[n] !in Select(items[..n], wrote[..n], true)))
  }

  lemma FiledStep(present: set<string>, items: seq<string>, i: nat, wrote: seq<bool>, ok: bool)
    requires i < |items| && |wrote| == i && Filed(present, items[..i], wrote)
    requires ok ==> items[i] !in present && items[i] !in Select(items[..i], wrote, true)
    ensures Filed(present, items[..i + 1], wrote + [ok])
  {
    assert items[..i + 1][..i] == items[..i] && (wrote + [ok])[..i] == wrote;
  }

  lemma {:induction false} SelectHas(items: seq<string>, wrote: seq<bool>, which: bool, i: nat)
    requires |items| == |wrote| && i < |items| && wrote[i] == which
    ensures items[i] in Select(items, wrote, which)
    decreases |items|
  {
    var n := |items| - 1;
    if i < n {
      SelectHas(items[..n], wrote[..n], which, i);
    }
  }

  lemma {:induction false} SelectFrom(items: seq<string>, wrote: seq<bool>, which: bool, item: string)
    requires |items| == |wrote| && item in Select(items, wrote, which)
    ensures item in items
    decreases |items|
  {
    var n := |items| - 1;
    if item in Select(items[..n], wrote[..n], which) {
      SelectFrom(items[..n], wrote[..n], which, item);
    }
  }

  /** A repeat of a stored or already added item is never written. */
  lemma {:induction false} RepeatsFail(present: set<string>, items: seq<string>, wrote: seq<bool>, i: nat, j: nat)
    requires |items| == |wrote| && i < |items| && Filed(present, items, wrote)
    requires items[i] in present || (j < i && wrote[j] && items[j] == items[i])
    ensures !wrote[i]
    decreases |items|
  {
    var n := |items| - 1;
    if i < n {
      RepeatsFail(present, items[..n], wrote[..n], i, j);
    } else if items[i] !in present {
      SelectHas(items[..n], wrote[..n], true, j);
    }
  }

  /** Every item is filed exactly once. */
  lemma {:induction false} FiledOnce(items: seq<string>, wrote: seq<bool>)
    requires |items| == |wrote|
    ensures multiset(Select(items, wrote, true)) + multiset(Select(items, wrote, false)) == multiset(items)
    decreases |items|
  {
    if items != [] {
      var n := |items| - 1;
      FiledOnce(items[..n], wrote[..n]);
      assert items == items[..n] + [items[n]];
    }
  }

  lemma {:induction false} NothingWritten(items: seq<string>, wrote: seq<bool>)
    requires |items| == |wrote|
    ensures Select(items, wrote, true) == [] <==> true !in wrote
    ensures |Select(items, wrote, true)| + |Select(items, wrote, false)| == |items|
    decreases |items|
  {
    if items != [] {
      var n := |items| - 1;
      NothingWritten(items[..n], wrote[..n]);
      assert wrote == wrote[..n] + [wrote[n]];
    }
  }

  // ----- what the tables hold

  /** The tables with `names` added in order, each with the attributes of `like`. */
  ghost function AddAll(db: Db, kind: Kind, names: seq<string>, like: Entry): Db {
    if names == [] then db
    else Created(AddAll(db, kind, names[..|names| - 1], like), kind, like.(item := names[|names| - 1]))
  }

  lemma AddOneMore(db: Db, kind: Kind, names: seq<string>, item: string, like: Entry)
    ensures AddAll(db, kind, names + [item], like) == Created(AddAll(db, kind, names, like), kind, like.(item := item))
  {
    assert (names + [item])[..|names|] == names;
  }

  /** Exactly the added names are new: they follow the old rows in order, and nothing else changes. */
  lemma {:induction false} AddAllAppends(db: Db, kind: Kind, names: seq<string>, like: Entry)
    ensures AddAll(db, kind, names, like).At(kind).next == db.At(kind).next + |names|
    ensures AddAll(db, kind, names, like).At(kind).rows == db.At(kind).rows +
              seq(|names|, i requires 0 <= i < |names| => Row(db.At(kind).next + i, like.(item := names[i])))
    ensures forall other: Kind :: other != kind ==> AddAll(db, kind, names, like).At(other) == db.At(other)
    decreases |names|
  {
    if names != [] {
      AddAllAppends(db, kind, names[..|names| - 1], like);
    }
  }

  lemma {:induction false} AddAllItems(db: Db, kind: Kind, names: seq<string>, like: Entry)
    ensures Items(AddAll(db, kind, names, like).At(kind).rows, like.action)
         == Items(db.At(kind).rows, like.action) + set name | name in names
    decreases |names|
  {
    if names != [] {
      var front, last := names[..|names| - 1], names[|names| - 1];
      AddAllItems(db, kind, front, like);
      ItemsAfter(AddAll(db, kind, front, like).At(kind), like.(item := last));
      assert names == front + [last];
    }
  }
}
