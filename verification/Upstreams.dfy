/** Statistics of where answers came from: upstream servers merged across pools,
    and the summary's counts per query status. */
module Upstreams {
  import opened Options
  import opened Sorting
  import opened Sums

  /** Answers per source: "cache", "local_dns", a block source, or "{pool}:{server}". */
  type SourceStats = map<string, nat>

  datatype Server = Server(name: string, count: nat)

  // ----- upstream keys

  function SplitOnce(key: string): Option<(string, string)> {
    if key == [] then None
    else if key[0] == ':' then Some(([], key[1..]))
    else match SplitOnce(key[1..])
      case None => None
      case Some((pool, server)) => Some(([key[0]] + pool, server))
  }

  predicate IsUpstreamKey(key: string) {
    ':' in key
  }

  function UpstreamKey(pool: string, server: string): string {
    pool + [':'] + server
  }

  /** The server of an upstream key; the key itself for any other source. */
  function ServerOf(key: string): string {
    match SplitOnce(key)
    case Some((_, server)) => server
    case None => key
  }

  lemma {:induction false} SplitsExactlyUpstreamKeys(key: string)
    ensures SplitOnce(key).Some? <==> IsUpstreamKey(key)
  {
    if key != [] {
      SplitsExactlyUpstreamKeys(key[1..]);
      assert key == [key[0]] + key[1..];
    }
  }

  lemma {:induction false} SplitAtFirstColon(pool: string, server: string)
    requires ':' !in pool
    ensures SplitOnce(UpstreamKey(pool, server)) == Some((pool, server))
  {
    if pool == [] {
      assert UpstreamKey(pool, server)[1..] == server;
    } else {
      SplitAtFirstColon(pool[1..], server);
      assert UpstreamKey(pool, server)[1..] == UpstreamKey(pool[1..], server);
      assert pool == [pool[0]] + pool[1..];
    }
  }

  lemma {:induction false} PoolHasNoColon(key: string)
    requires SplitOnce(key).Some?
    ensures ':' !in SplitOnce(key).value.0
  {
    if key[0] != ':' {
      PoolHasNoColon(key[1..]);
    }
  }

  /** A pool and a server are read back from their key exactly when the pool's
      name has no colon; with one, queries are credited to a server that does not exist. */
  lemma KeyReadsBackExactly(pool: string, server: string)
    ensures SplitOnce(UpstreamKey(pool, server)) == Some((pool, server)) <==> ':' !in pool
  {
    if ':' !in pool {
      SplitAtFirstColon(pool, server);
    } else if SplitOnce(UpstreamKey(pool, server)).Some? {
      PoolHasNoColon(UpstreamKey(pool, server));
    }
  }

  // ----- the order servers are listed in

  predicate LexLess(a: string, b: string) {
    b != [] && (a == [] || a[0] < b[0] || (a[0] == b[0] && LexLess(a[1..], b[1..])))
  }

  lemma {:induction false} LexTrichotomy(a: string, b: string)
    ensures LexLess(a, b) || a == b || LexLess(b, a)
    ensures !(LexLess(a, b) && LexLess(b, a))
    ensures !LexLess(a, a)
  {
    if a != [] {
      LexTrichotomy(a[1..], if b == [] then [] else b[1..]);
      if b != [] && a[0] == b[0] && a[1..] == b[1..] {
        assert a == [a[0]] + a[1..] && b == [b[0]] + b[1..];
      }
    }
  }

  lemma {:induction false} LexTransitive(a: string, b: string, c: string)
    requires LexLess(a, b) && LexLess(b, c)
    ensures LexLess(a, c)
  {
    if a != [] && a[0] == b[0] == c[0] {
      LexTransitive(a[1..], b[1..], c[1..]);
    }
  }

  /** Descending count, then ascending name. */
  predicate Before(a: Server, b: Server) {
    a.count > b.count || (a.count == b.count && LexLess(a.name, b.name))
  }

  lemma BeforeTransitive(a: Server, b: Server, c: Server)
    requires Before(a, b) && Before(b, c)
    ensures Before(a, c)
  {
    if a.count == c.count {
      LexTransitive(a.name, b.name, c.name);
    }
  }

  lemma BeforeIsStrict()
    ensures StrictOrder(Before)
  {
    forall a ensures !Before(a, a) {
      LexTrichotomy(a.name, a.name);
    }
    forall a, b, c | Before(a, b) && Before(b, c) ensures Before(a, c) {
      BeforeTransitive(a, b, c);
    }
  }

  // ----- upstream_servers

  /** The queries of each server over the sources in `stats`. */
  ghost function ServerTotal(stats: SourceStats, name: string): nat {
    Sum(map key | key in stats && IsUpstreamKey(key) && ServerOf(key) == name :: stats[key])
  }

  function ServerNames(stats: SourceStats): set<string> {
    set key | key in stats && IsUpstreamKey(key) :: ServerOf(key)
  }

  /** What the listing promises: every server that answered, once, with its total. */
  ghost predicate IsListing(stats: SourceStats, servers: seq<Server>) {
    && Ordered(servers, Before)
    && forall s :: s in servers <==> s.name in ServerNames(stats) && s.count == ServerTotal(stats, s.name)
  }

  /** The queries answered by upstream servers. */
  ghost function ForwardedCount(stats: SourceStats): nat {
    Sum(map key | key in stats && IsUpstreamKey(key) :: stats[key])
  }

  ghost predicate HoldsTotals(seen: SourceStats, perServer: map<string, nat>) {
    forall name :: name in perServer ==> perServer[name] == ServerTotal(seen, name)
  }

  /** The accumulator after some of the sources, whatever their order. */
  ghost predicate Merged(seen: SourceStats, perServer: map<string, nat>) {
    && perServer.Keys == ServerNames(seen)
    && HoldsTotals(seen, perServer)
    && Sum(perServer) == ForwardedCount(seen)
  }

  function Merging(perServer: map<string, nat>, key: string, count: nat): map<string, nat> {
    if IsUpstreamKey(key) then Added(perServer, ServerOf(key), count) else perServer
  }

  lemma MergeStep(seen: SourceStats, perServer: map<string, nat>, key: string, count: nat)
    requires key !in seen && Merged(seen, perServer)
    ensures Merged(seen[key := count], Merging(perServer, key, count))
  {
    ServerNamesStep(seen, key, count);
    ForwardedStep(seen, key, count);
    TotalsStep(seen, perServer, key, count);
    if IsUpstreamKey(key) {
      SumAdded(perServer, ServerOf(key), count);
    }
  }

  lemma TotalsStep(seen: SourceStats, perServer: map<string, nat>, key: string, count: nat)
    requires key !in seen && HoldsTotals(seen, perServer) && perServer.Keys == ServerNames(seen)
    ensures HoldsTotals(seen[key := count], Merging(perServer, key, count))
  {
    var merged := Merging(perServer, key, count);
    forall name | name in merged ensures merged[name] == ServerTotal(seen[key := count], name) {
      ServerTotalStep(seen, key, count, name);
      NoNameNoTotal(seen, name);
    }
  }

  lemma ServerNamesStep(seen: SourceStats, key: string, count: nat)
    requires key !in seen
    ensures ServerNames(seen[key := count]) == ServerNames(seen) + if IsUpstreamKey(key) then {ServerOf(key)} else {}
  {
    var after := seen[key := count];
    assert key in after;
    forall k | k in seen && IsUpstreamKey(k) ensures ServerOf(k) in ServerNames(after) {
      assert k in after;
    }
  }

  lemma ForwardedStep(seen: SourceStats, key: string, count: nat)
    requires key !in seen
    ensures ForwardedCount(seen[key := count]) == ForwardedCount(seen) + if IsUpstreamKey(key) then count else 0
  {
    var after := seen[key := count];
    var keys := map k | k in seen && IsUpstreamKey(k) :: seen[k];
    var keys' := map k | k in after && IsUpstreamKey(k) :: after[k];
    if IsUpstreamKey(key) {
      assert keys' == keys[key := count];
      SumUpdate(keys, key, count);
    } else {
      assert keys' == keys;
    }
  }

  lemma ServerTotalStep(seen: SourceStats, key: string, count: nat, name: string)
    requires key !in seen
    ensures ServerTotal(seen[key := count], name) ==
            ServerTotal(seen, name) + if IsUpstreamKey(key) && ServerOf(key) == name then count else 0
  {
    var after := seen[key := count];
    var keys := map k | k in seen && IsUpstreamKey(k) && ServerOf(k) == name :: seen[k];
    var keys' := map k | k in after && IsUpstreamKey(k) && ServerOf(k) == name :: after[k];
    if IsUpstreamKey(key) && ServerOf(key) == name {
      assert keys' == keys[key := count];
      SumUpdate(keys, key, count);
    } else {
      assert keys' == keys;
    }
  }

  lemma NoNameNoTotal(stats: SourceStats, name: string)
    ensures name !in ServerNames(stats) ==> ServerTotal(stats, name) == 0
  {
    if name !in ServerNames(stats) {
      var none := map key | key in stats && IsUpstreamKey(key) && ServerOf(key) == name :: stats[key];
      assert none == map[];
    }
  }

  method UpstreamServers(stats: SourceStats) returns (servers: seq<Server>)
    ensures IsListing(stats, servers)
    ensures TotalCount(servers) == ForwardedCount(stats)
  {
    var perServer := MergePools(stats);
    servers := Listed(perServer);
  }

  method MergePools(stats: SourceStats) returns (perServer: map<string, nat>)
    ensures Merged(stats, perServer)
  {
    perServer := map[];
    var rest := stats.Keys;
    NothingMerged(stats - rest);
    while rest != {}
      invariant rest <= stats.Keys
      invariant Merged(stats - rest, perServer)
    {
      var key :| key in rest;
      MergeOneMore(stats, rest, perServer, key);
      SplitsExactlyUpstreamKeys(key);
      match SplitOnce(key) {
        case Some((_, server)) => perServer := Added(perServer, server, stats[key]);
        case None =>
      }
      rest := rest - {key};
    }
    assert stats - rest == stats;
  }

  lemma MergeOneMore(stats: SourceStats, rest: set<string>, perServer: map<string, nat>, key: string)
    requires key in rest && rest <= stats.Keys && Merged(stats - rest, perServer)
    ensures Merged(stats - (rest - {key}), Merging(perServer, key, stats[key]))
  {
    MergeStep(stats - rest, perServer, key, stats[key]);
    assert stats - (rest - {key}) == (stats - rest)[key := stats[key]];
  }

  lemma NothingMerged(none: SourceStats)
    requires none == map[]
    ensures Merged(none, map[])
  {
    assert (map key | key in none && IsUpstreamKey(key) :: none[key]) == map[];
  }

  function TotalCount(servers: seq<Server>): nat {
    if servers == [] then 0 else TotalCount(servers[..|servers| - 1]) + servers[|servers| - 1].count
  }

  lemma {:induction false} TotalPlaced(servers: seq<Server>, x: Server)
    ensures TotalCount(Placed(servers, x, Before)) == TotalCount(servers) + x.count
  {
    if servers == [] {
      assert [x][..0] == [];
    } else {
      var init, last := servers[..|servers| - 1], servers[|servers| - 1];
      if Before(last, x) {
        assert (servers + [x])[..|servers|] == servers;
      } else {
        TotalPlaced(init, x);
        var placed := Placed(init, x, Before);
        assert (placed + [last])[..|placed|] == placed;
      }
    }
  }

  lemma ListNext(servers: seq<Server>, next: Server)
    requires Ordered(servers, Before) && forall s <- servers :: s.name != next.name
    ensures Ordered(Placed(servers, next, Before), Before)
    ensures TotalCount(Placed(servers, next, Before)) == TotalCount(servers) + next.count
    ensures forall s :: s in Placed(servers, next, Before) <==> s in servers || s == next
  {
    forall s <- servers ensures Before(s, next) || Before(next, s) {
      LexTrichotomy(s.name, next.name);
    }
    PlacedInOrder(servers, next, Before);
    TotalPlaced(servers, next);
    forall s ensures s in Placed(servers, next, Before) <==> s in servers || s == next {
      PlacedHas(servers, next, Before, s);
    }
  }

  method Listed(perServer: map<string, nat>) returns (servers: seq<Server>)
    ensures Ordered(servers, Before) && TotalCount(servers) == Sum(perServer)
    ensures forall s :: s in servers <==> s.name in perServer && s.count == perServer[s.name]
  {
    servers := [];
    var rest := perServer;
    while rest != map[]
      invariant Ordered(servers, Before) && TotalCount(servers) + Sum(rest) == Sum(perServer)
      invariant forall name :: name in rest ==> name in perServer && rest[name] == perServer[name]
      invariant forall s :: s in servers <==> s.name in perServer && s.name !in rest && s.count == perServer[s.name]
      decreases |rest|
    {
      var name :| name in rest;
      var next := Server(name, rest[name]);
      ListNext(servers, next);
      SumRemove(rest, name);
      servers := Placed(servers, next, Before);
      assert (rest - {name}).Keys == rest.Keys - {name};
      rest := rest - {name};
    }
  }

  /** With a colon in its pool's name, a server's queries are credited to a server that does
      not exist, and the real one is missing from the listing. */
  lemma ColonListsAPhantom(pool: string, server: string, count: nat, servers: seq<Server>)
    requires ':' in pool && IsListing(map[UpstreamKey(pool, server) := count], servers)
    ensures exists s :: s in servers && |s.name| > |server|
    ensures forall s :: s in servers ==> s.name != server
  {
    var key := UpstreamKey(pool, server);
    var stats: SourceStats := map[key := count];
    assert key in stats && IsUpstreamKey(key);
    ServerAfterFirstColon(pool, server);
    assert ServerNames(stats) == {ServerOf(key)};
    assert Server(ServerOf(key), ServerTotal(stats, ServerOf(key))) in servers;
  }

  lemma {:induction false} ServerAfterFirstColon(pool: string, server: string)
    requires ':' in pool
    ensures SplitOnce(UpstreamKey(pool, server)).Some?
    ensures |ServerOf(UpstreamKey(pool, server))| > |server|
  {
    if pool[0] != ':' {
      assert pool == [pool[0]] + pool[1..];
      ServerAfterFirstColon(pool[1..], server);
      assert UpstreamKey(pool, server)[1..] == UpstreamKey(pool[1..], server);
    }
  }

  /** Pool "a:b" answering from "s": the listing shows the one server "b:s". */
  lemma PoolNamedWithColon(count: nat, servers: seq<Server>)
    requires IsListing(map[UpstreamKey(['a', ':', 'b'], ['s']) := count], servers)
    ensures exists s :: s in servers && s.name == ['b', ':', 's']
    ensures forall s :: s in servers ==> s.name == ['b', ':', 's']
  {
    var key := UpstreamKey(['a', ':', 'b'], ['s']);
    var stats: SourceStats := map[key := count];
    assert key == UpstreamKey(['a'], ['b', ':', 's']);
    SplitAtFirstColon(['a'], ['b', ':', 's']);
    assert key in stats && IsUpstreamKey(key);
    assert ServerNames(stats) == {['b', ':', 's']};
    assert Server(['b', ':', 's'], ServerTotal(stats, ['b', ':', 's'])) in servers;
  }

  /** The listing does not depend on the order the hash maps are walked in. */
  lemma ListingIsUnique(stats: SourceStats, a: seq<Server>, b: seq<Server>)
    requires IsListing(stats, a) && IsListing(stats, b)
    ensures a == b
  {
    BeforeIsStrict();
    OrderIsUnique(a, b, Before);
  }

  /** `a` comes before `b` in the dictionary: it ends where they first differ, or has the
      smaller character there. */
  ghost predicate Precedes(a: string, b: string) {
    exists i :: DiffersAt(a, b, i)
  }

  ghost predicate DiffersAt(a: string, b: string, i: nat) {
    i <= |a| && i < |b| && a[..i] == b[..i] && (i < |a| ==> a[i] < b[i])
  }

  lemma DiffersLater(a: string, b: string, i: nat)
    requires DiffersAt(a, b, i) && i > 0
    ensures a != [] && b != [] && a[0] == b[0] && DiffersAt(a[1..], b[1..], i - 1)
  {
    assert a[..i][0] == b[..i][0];
    assert a[1..][..i - 1] == a[..i][1..] && b[1..][..i - 1] == b[..i][1..];
  }

  lemma DiffersEarlier(a: string, b: string, i: nat)
    requires a != [] && b != [] && a[0] == b[0] && DiffersAt(a[1..], b[1..], i)
    ensures DiffersAt(a, b, i + 1)
  {
    assert a[..i + 1] == [a[0]] + a[1..][..i] && b[..i + 1] == [b[0]] + b[1..][..i];
  }

  lemma {:induction false} LexLessExactly(a: string, b: string)
    ensures LexLess(a, b) <==> Precedes(a, b)
    decreases |a|
  {
    if a != [] && b != [] && a[0] == b[0] {
      LexLessExactly(a[1..], b[1..]);
      if Precedes(a[1..], b[1..]) {
        var i: nat :| DiffersAt(a[1..], b[1..], i);
        DiffersEarlier(a, b, i);
      }
    } else if LexLess(a, b) {
      assert DiffersAt(a, b, 0);
    }
    if Precedes(a, b) {
      var i: nat :| DiffersAt(a, b, i);
      if i > 0 {
        DiffersLater(a, b, i);
      }
    }
  }

  /** Servers are listed with the most answers first, equal ones by name. */
  lemma ListedInOrder(stats: SourceStats, servers: seq<Server>, i: nat, j: nat)
    requires IsListing(stats, servers) && i < j < |servers|
    ensures servers[i].count >= servers[j].count
    ensures servers[i].count == servers[j].count ==> Precedes(servers[i].name, servers[j].name)
  {
    BeforeIsStrict();
    OrderedPairs(servers, Before, i, j);
    LexLessExactly(servers[i].name, servers[j].name);
  }
}
