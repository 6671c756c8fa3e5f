/** From the query log's rows to the listing of upstream servers: when every server is
    listed with the answers it gave. */
module UpstreamCredits {
  import opened Options
  import opened Sorting
  import opened Sums
  import opened Upstreams

  /** The answers of one server of one pool; an empty name was not recorded. */
  datatype Answers = Answers(pool: string, server: string, count: nat)

  const UNKNOWN := ['u', 'n', 'k', 'n', 'o', 'w', 'n']

  function Shown(name: string): string {
    if name == [] then UNKNOWN else name
  }

  function KeyOf(a: Answers): string {
    UpstreamKey(Shown(a.pool), Shown(a.server))
  }

  /** The sources with the rows put in, in the order they come; a key that comes twice keeps
      the later count. */
  function Recorded(base: SourceStats, rows: seq<Answers>): SourceStats {
    if rows == [] then base
    else
      var last := rows[|rows| - 1];
      Recorded(base, rows[..|rows| - 1])[KeyOf(last) := last.count]
  }

  /** What a server answered, over all pools. */
  function AnsweredBy(rows: seq<Answers>, server: string): nat {
    if rows == [] then 0
    else
      var last := rows[|rows| - 1];
      AnsweredBy(rows[..|rows| - 1], server) + if Shown(last.server) == server then last.count else 0
  }

  /** Every server that answered is listed, and every one listed has the answers it gave. */
  ghost predicate CreditsRightly(servers: seq<Server>, rows: seq<Answers>) {
    && (forall s <- servers :: s.count == AnsweredBy(rows, s.name))
    && (forall a <- rows :: exists s <- servers :: s.name == Shown(a.server))
  }

  predicate HasColon(a: Answers) {
    ':' in a.pool
  }

  /** No answering pool has a colon in its name, and no two rows show the same pool and server. */
  ghost predicate Readable(rows: seq<Answers>) {
    && (forall i :: 0 <= i < |rows| ==> !HasColon(rows[i]))
    && (forall i, j :: 0 <= i < j < |rows| ==> !SameNames(rows[i], rows[j]))
  }

  predicate SameNames(a: Answers, b: Answers) {
    Shown(a.pool) == Shown(b.pool) && Shown(a.server) == Shown(b.server)
  }

  /** The log's rows, next to sources that are no upstream's. */
  ghost predicate FromLog(base: SourceStats, rows: seq<Answers>) {
    && (forall key <- base :: !IsUpstreamKey(key))
    && (forall i :: 0 <= i < |rows| ==> rows[i].count > 0)
  }

  lemma FromLogFront(base: SourceStats, rows: seq<Answers>)
    requires FromLog(base, rows) && rows != []
    ensures FromLog(base, rows[..|rows| - 1])
  {}

  // ----- keys

  lemma ColonOfPool(a: Answers)
    ensures ':' in Shown(a.pool) <==> HasColon(a)
  {}

  /** The server read from a row's key: its own, or a longer name. */
  lemma ReadServer(a: Answers)
    ensures IsUpstreamKey(KeyOf(a))
    ensures !HasColon(a) ==> ServerOf(KeyOf(a)) == Shown(a.server)
    ensures HasColon(a) ==> |ServerOf(KeyOf(a))| > |Shown(a.server)|
  {
    ColonOfPool(a);
    assert ':' in KeyOf(a) by {
      assert KeyOf(a)[|Shown(a.pool)|] == ':';
    }
    if HasColon(a) {
      ServerAfterFirstColon(Shown(a.pool), Shown(a.server));
    } else {
      SplitAtFirstColon(Shown(a.pool), Shown(a.server));
    }
  }

  lemma SameKeyExactly(a: Answers, b: Answers)
    requires !HasColon(a) && !HasColon(b)
    ensures KeyOf(a) == KeyOf(b) <==> SameNames(a, b)
  {
    ColonOfPool(a);
    ColonOfPool(b);
    SplitAtFirstColon(Shown(a.pool), Shown(a.server));
    SplitAtFirstColon(Shown(b.pool), Shown(b.server));
  }

  ghost predicate HasKey(rows: seq<Answers>, key: string) {
    rows != [] && (KeyOf(rows[|rows| - 1]) == key || HasKey(rows[..|rows| - 1], key))
  }

  lemma {:induction false} HasKeyAt(rows: seq<Answers>, i: nat)
    requires i < |rows|
    ensures HasKey(rows, KeyOf(rows[i]))
    decreases |rows|
  {
    if i < |rows| - 1 {
      HasKeyAt(rows[..|rows| - 1], i);
    }
  }

  lemma {:induction false} RowWithKey(rows: seq<Answers>, key: string) returns (i: nat)
    requires HasKey(rows, key)
    ensures i < |rows| && KeyOf(rows[i]) == key
    decreases |rows|
  {
    if KeyOf(rows[|rows| - 1]) == key {
      i := |rows| - 1;
    } else {
      i := RowWithKey(rows[..|rows| - 1], key);
    }
  }

  lemma {:induction false} RecordedHas(base: SourceStats, rows: seq<Answers>, key: string)
    ensures key in Recorded(base, rows) <==> key in base || HasKey(rows, key)
    decreases |rows|
  {
    if rows != [] {
      RecordedHas(base, rows[..|rows| - 1], key);
    }
  }

  lemma {:induction false} RecordedPositive(base: SourceStats, rows: seq<Answers>, key: string)
    requires FromLog(base, rows) && key in Recorded(base, rows) && IsUpstreamKey(key)
    ensures Recorded(base, rows)[key] > 0
    decreases |rows|
  {
    if rows != [] {
      FromLogFront(base, rows);
      if key != KeyOf(rows[|rows| - 1]) {
        RecordedPositive(base, rows[..|rows| - 1], key);
      }
    }
  }

  // ----- one more row

  ghost function Of(stats: SourceStats, name: string): map<string, nat> {
    map key | key in stats && IsUpstreamKey(key) && ServerOf(key) == name :: stats[key]
  }

  /** What recording a key adds to the server it is read as: its count, less what it replaces. */
  lemma ServerTotalUpdate(stats: SourceStats, key: string, count: nat, name: string)
    requires IsUpstreamKey(key)
    ensures ServerTotal(stats[key := count], name) ==
            if ServerOf(key) == name
            then ServerTotal(stats, name) + count - (if key in stats then stats[key] else 0)
            else ServerTotal(stats, name)
  {
    assert ServerTotal(stats, name) == Sum(Of(stats, name));
    assert ServerTotal(stats[key := count], name) == Sum(Of(stats[key := count], name));
    if ServerOf(key) == name {
      assert Of(stats[key := count], name) == Of(stats, name)[key := count];
      SumUpdate(Of(stats, name), key, count);
    } else {
      assert Of(stats[key := count], name) == Of(stats, name);
    }
  }

  lemma {:induction false} NothingCredited(base: SourceStats, name: string)
    requires forall key <- base :: !IsUpstreamKey(key)
    ensures ServerTotal(base, name) == 0
  {
    assert ServerTotal(base, name) == Sum(Of(base, name));
    assert Of(base, name) == map[];
  }

  // ----- readable rows are credited rightly

  lemma FreshKey(base: SourceStats, rows: seq<Answers>)
    requires FromLog(base, rows) && Readable(rows) && rows != []
    ensures KeyOf(rows[|rows| - 1]) !in Recorded(base, rows[..|rows| - 1])
  {
    var front, last := rows[..|rows| - 1], rows[|rows| - 1];
    ReadServer(last);
    RecordedHas(base, front, KeyOf(last));
    forall i | 0 <= i < |front| ensures KeyOf(front[i]) != KeyOf(last) {
      assert front[i] == rows[i];
      SameKeyExactly(rows[i], last);
    }
    if HasKey(front, KeyOf(last)) {
      var i := RowWithKey(front, KeyOf(last));
    }
  }

  lemma {:induction false} ReadableIsExact(base: SourceStats, rows: seq<Answers>, name: string)
    requires FromLog(base, rows) && Readable(rows)
    ensures ServerTotal(Recorded(base, rows), name) == AnsweredBy(rows, name)
    decreases |rows|
  {
    if rows == [] {
      NothingCredited(base, name);
    } else {
      var front, last := rows[..|rows| - 1], rows[|rows| - 1];
      assert Readable(front);
      FromLogFront(base, rows);
      ReadableIsExact(base, front, name);
      ReadServer(last);
      FreshKey(base, rows);
      ServerTotalUpdate(Recorded(base, front), KeyOf(last), last.count, name);
    }
  }

  // ----- the shortest name lost falls short

  /** A row whose answers do not reach its server: its pool has a colon, or a later row has its key. */
  ghost predicate Astray(rows: seq<Answers>, i: nat)
    requires i < |rows|
  {
    HasColon(rows[i]) || exists j :: i < j < |rows| && KeyOf(rows[j]) == KeyOf(rows[i])
  }

  /** Every row read as this server is one of its own. */
  ghost predicate OnlyItsOwn(rows: seq<Answers>, name: string) {
    forall i :: 0 <= i < |rows| && ServerOf(KeyOf(rows[i])) == name ==> Shown(rows[i].server) == name
  }

  /** `last` takes the place of a row of this server that was read rightly. */
  ghost predicate Overwrites(front: seq<Answers>, last: Answers, name: string) {
    exists i :: 0 <= i < |front| && Shown(front[i].server) == name && !HasColon(front[i])
                && KeyOf(front[i]) == KeyOf(last)
  }

  /** Some row of this server goes astray. */
  ghost predicate Loses(rows: seq<Answers>, name: string) {
    rows != [] &&
    (var front, last := rows[..|rows| - 1], rows[|rows| - 1];
     || Loses(front, name)
     || (Shown(last.server) == name && HasColon(last))
     || Overwrites(front, last, name))
  }

  lemma {:induction false} ColonLoses(rows: seq<Answers>, i: nat)
    requires i < |rows| && HasColon(rows[i])
    ensures Loses(rows, Shown(rows[i].server))
    decreases |rows|
  {
    if i < |rows| - 1 {
      ColonLoses(rows[..|rows| - 1], i);
    }
  }

  lemma {:induction false} OverwrittenLoses(rows: seq<Answers>, i: nat, j: nat)
    requires i < j < |rows| && !HasColon(rows[i]) && KeyOf(rows[j]) == KeyOf(rows[i])
    ensures Loses(rows, Shown(rows[i].server))
    decreases |rows|
  {
    var front := rows[..|rows| - 1];
    assert front[i] == rows[i];
    if j < |front| {
      OverwrittenLoses(front, i, j);
    } else {
      assert Overwrites(front, rows[j], Shown(rows[i].server));
    }
  }

  lemma AstrayLoses(rows: seq<Answers>, i: nat)
    requires i < |rows| && Astray(rows, i)
    ensures Loses(rows, Shown(rows[i].server))
  {
    if HasColon(rows[i]) {
      ColonLoses(rows, i);
    } else {
      var j :| i < j < |rows| && KeyOf(rows[j]) == KeyOf(rows[i]);
      OverwrittenLoses(rows, i, j);
    }
  }

  /** A server no misread row is credited to never gets more than its answers, and gets
      fewer once one of its rows goes astray. */
  lemma {:induction false} FallsShort(base: SourceStats, rows: seq<Answers>, name: string)
    requires FromLog(base, rows) && OnlyItsOwn(rows, name)
    ensures ServerTotal(Recorded(base, rows), name) <= AnsweredBy(rows, name)
    ensures Loses(rows, name) ==> ServerTotal(Recorded(base, rows), name) < AnsweredBy(rows, name)
    decreases |rows|
  {
    if rows == [] {
      NothingCredited(base, name);
    } else {
      var front, last := rows[..|rows| - 1], rows[|rows| - 1];
      FromLogFront(base, rows);
      OwnOfFront(rows, name);
      FallsShort(base, front, name);
      ReadServer(last);
      ServerTotalUpdate(Recorded(base, front), KeyOf(last), last.count, name);
      assert last.count > 0;
      if Overwrites(front, last, name) {
        OverwritesOwn(base, front, last, name);
      }
    }
  }

  lemma OwnOfFront(rows: seq<Answers>, name: string)
    requires rows != [] && OnlyItsOwn(rows, name)
    ensures OnlyItsOwn(rows[..|rows| - 1], name)
    ensures ServerOf(KeyOf(rows[|rows| - 1])) == name ==> Shown(rows[|rows| - 1].server) == name
  {
    var front := rows[..|rows| - 1];
    assert forall i :: 0 <= i < |front| ==> front[i] == rows[i];
  }

  /** A row recorded over one of the server's replaces a positive count. */
  lemma OverwritesOwn(base: SourceStats, front: seq<Answers>, last: Answers, name: string)
    requires FromLog(base, front) && Overwrites(front, last, name)
    ensures ServerOf(KeyOf(last)) == name
    ensures KeyOf(last) in Recorded(base, front) && Recorded(base, front)[KeyOf(last)] > 0
  {
    var i :| 0 <= i < |front| && Shown(front[i].server) == name && !HasColon(front[i])
             && KeyOf(front[i]) == KeyOf(last);
    ReadServer(front[i]);
    HasKeyAt(front, i);
    RecordedHas(base, front, KeyOf(last));
    RecordedPositive(base, front, KeyOf(last));
  }

  ghost predicate Shortest(rows: seq<Answers>, i: nat) {
    && i < |rows| && Astray(rows, i)
    && forall j :: 0 <= j < |rows| && Astray(rows, j) ==> |Shown(rows[j].server)| >= |Shown(rows[i].server)|
  }

  lemma {:induction false} ShortestAstray(rows: seq<Answers>, i: nat) returns (m: nat)
    requires i < |rows| && Astray(rows, i)
    ensures Shortest(rows, m)
    decreases |Shown(rows[i].server)|
  {
    if exists j :: 0 <= j < |rows| && Astray(rows, j) && |Shown(rows[j].server)| < |Shown(rows[i].server)| {
      var j :| 0 <= j < |rows| && Astray(rows, j) && |Shown(rows[j].server)| < |Shown(rows[i].server)|;
      m := ShortestAstray(rows, j);
    } else {
      m := i;
    }
  }

  lemma ColonIsNoShorter(rows: seq<Answers>, m: nat, i: nat)
    requires Shortest(rows, m) && i < |rows| && HasColon(rows[i])
    ensures |Shown(rows[i].server)| >= |Shown(rows[m].server)|
  {
    assert Astray(rows, i);
  }

  /** Misread rows are credited to longer names, so the shortest server gone astray gets none. */
  lemma ShortestGetsOnlyItsOwn(rows: seq<Answers>, m: nat)
    requires Shortest(rows, m)
    ensures OnlyItsOwn(rows, Shown(rows[m].server))
  {
    forall i: nat | i < |rows| && ServerOf(KeyOf(rows[i])) == Shown(rows[m].server)
      ensures Shown(rows[i].server) == Shown(rows[m].server) {
      ReadServer(rows[i]);
      if HasColon(rows[i]) {
        ColonIsNoShorter(rows, m, i);
      }
    }
  }

  lemma UnreadableGoesAstray(rows: seq<Answers>) returns (i: nat)
    requires !Readable(rows)
    ensures i < |rows| && Astray(rows, i)
  {
    if exists k :: 0 <= k < |rows| && HasColon(rows[k]) {
      i :| 0 <= i < |rows| && HasColon(rows[i]);
    } else {
      var k, j :| 0 <= k < j < |rows| && SameNames(rows[k], rows[j]);
      SameKeyExactly(rows[k], rows[j]);
      i := k;
    }
  }

  // ----- the listing

  lemma CreditedExactly(stats: SourceStats, rows: seq<Answers>, servers: seq<Server>, i: nat)
    requires IsListing(stats, servers) && CreditsRightly(servers, rows) && i < |rows|
    ensures ServerTotal(stats, Shown(rows[i].server)) == AnsweredBy(rows, Shown(rows[i].server))
  {
    assert rows[i] in rows;
    var s :| s in servers && s.name == Shown(rows[i].server);
  }

  lemma UnreadableIsCreditedWrongly(base: SourceStats, rows: seq<Answers>, servers: seq<Server>)
    requires FromLog(base, rows) && IsListing(Recorded(base, rows), servers) && !Readable(rows)
    ensures !CreditsRightly(servers, rows)
  {
    var i := UnreadableGoesAstray(rows);
    var m := ShortestAstray(rows, i);
    ShortestGetsOnlyItsOwn(rows, m);
    AstrayLoses(rows, m);
    if CreditsRightly(servers, rows) {
      CreditedExactly(Recorded(base, rows), rows, servers, m);
      FallsShort(base, rows, Shown(rows[m].server));
    }
  }

  lemma ReadableIsCreditedRightly(base: SourceStats, rows: seq<Answers>, servers: seq<Server>)
    requires FromLog(base, rows) && IsListing(Recorded(base, rows), servers) && Readable(rows)
    ensures CreditsRightly(servers, rows)
  {
    var stats := Recorded(base, rows);
    forall s <- servers ensures s.count == AnsweredBy(rows, s.name) {
      ReadableIsExact(base, rows, s.name);
    }
    forall a <- rows ensures exists s <- servers :: s.name == Shown(a.server) {
      var i :| 0 <= i < |rows| && rows[i] == a;
      ReadServer(rows[i]);
      HasKeyAt(rows, i);
      RecordedHas(base, rows, KeyOf(rows[i]));
      assert KeyOf(rows[i]) in stats && ServerOf(KeyOf(rows[i])) in ServerNames(stats);
      assert Server(Shown(a.server), ServerTotal(stats, Shown(a.server))) in servers;
    }
  }

  /** The listing gives every server that answered, and no other, exactly its answers over all
      pools, if and only if no answering pool has a colon in its name and no two of the log's
      rows show the same pool and server. */
  lemma ListingCreditsExactly(base: SourceStats, rows: seq<Answers>, servers: seq<Server>)
    requires FromLog(base, rows) && IsListing(Recorded(base, rows), servers)
    ensures CreditsRightly(servers, rows) <==> Readable(rows)
  {
    if Readable(rows) {
      ReadableIsCreditedRightly(base, rows, servers);
    } else {
      UnreadableIsCreditedWrongly(base, rows, servers);
    }
  }

  /** The key a row is recorded under; a name that was not recorded reads "unknown". */
  lemma KeyText(a: Answers)
    ensures a.pool != [] && a.server != [] ==> KeyOf(a) == a.pool + ":" + a.server
    ensures a.pool == [] && a.server != [] ==> KeyOf(a) == "unknown:" + a.server
    ensures a.pool != [] && a.server == [] ==> KeyOf(a) == a.pool + ":unknown"
    ensures a.pool == [] && a.server == [] ==> KeyOf(a) == "unknown:unknown"
  {
    assert UNKNOWN == "unknown";
    assert "unknown:" == "unknown" + ":" && ":unknown" == ":" + "unknown";
    assert "unknown:unknown" == "unknown" + ":" + "unknown";
    assert a.pool + ":unknown" == a.pool + ":" + "unknown";
  }
}
