/** The query counts of /stats/summary: one walk over the answer sources must
    agree with the figures computed from the same sources in other ways. */
module Summary {
  import opened Options
  import opened Sums
  import opened Upstreams

  datatype BlockSource =
    | Blocklist | ManagedDomain | RegexFilter | CnameCloaking | Schedule | DnsRebinding | RateLimit
    | DnsTunneling | NxdomainHijack | ResponseIpFilter | DgaDetection | NonFqdn | PrivatePtr | DnsCookie

  const BLOCK_SOURCES: seq<(string, BlockSource)> := [
    ("blocklist", Blocklist), ("managed_domain", ManagedDomain), ("regex_filter", RegexFilter),
    ("cname_cloaking", CnameCloaking), ("schedule", Schedule), ("dns_rebinding", DnsRebinding),
    ("rate_limit", RateLimit), ("dns_tunneling", DnsTunneling), ("nxdomain_hijack", NxdomainHijack),
    ("response_ip_filter", ResponseIpFilter), ("dga_detection", DgaDetection), ("non_fqdn", NonFqdn),
    ("private_ptr", PrivatePtr), ("dns_cookie", DnsCookie)]

  function Parse(name: string, table: seq<(string, BlockSource)>): Option<BlockSource> {
    if table == [] then None
    else if table[0].0 == name then Some(table[0].1)
    else Parse(name, table[1..])
  }

  /** The query statuses Ferrous produces, and FTL's fallback. */
  datatype Status = Unknown | Gravity | Forwarded | Cache | Regex | Denylist | GravityCname

  function BlockedStatus(source: Option<BlockSource>): Status {
    match source
    case Some(RegexFilter) => Regex
    case Some(ManagedDomain) => Denylist
    case Some(CnameCloaking) => GravityCname
    case _ => Gravity
  }

  /** The status a source's answers count under. */
  function StatusOf(key: string): Status {
    if IsLocalKey(key) then Cache
    else if IsUpstreamKey(key) then Forwarded
    else BlockedStatus(Parse(key, BLOCK_SOURCES))
  }

  const CACHE_KEY := "cache"
  const LOCAL_DNS_KEY := "local_dns"

  /** Answers from local configuration count as cached. */
  predicate IsLocalKey(key: string) {
    key == CACHE_KEY || key == LOCAL_DNS_KEY
  }

  /** The counters `add` can reach; FTL's other statuses stay 0. */
  datatype StatusCounts = StatusCounts(
    unknown: nat, gravity: nat, forwarded: nat, cache: nat, regex: nat, denylist: nat, gravityCname: nat)
  {
    function Of(status: Status): nat {
      match status
      case Unknown => unknown
      case Gravity => gravity
      case Forwarded => forwarded
      case Cache => cache
      case Regex => regex
      case Denylist => denylist
      case GravityCname => gravityCname
    }

    function Total(): nat {
      unknown + gravity + forwarded + cache + regex + denylist + gravityCname
    }
  }

  class QueryStatusCounts {
    var counts: StatusCounts

    constructor ()
      ensures counts == StatusCounts(0, 0, 0, 0, 0, 0, 0)
    {
      counts := StatusCounts(0, 0, 0, 0, 0, 0, 0);
    }

    method Add(status: Status, count: nat)
      modifies this
      ensures Moved(old(counts), counts, status, count)
    {
      match status
      case Gravity => counts := counts.(gravity := counts.gravity + count);
      case Forwarded => counts := counts.(forwarded := counts.forwarded + count);
      case Cache => counts := counts.(cache := counts.cache + count);
      case Regex => counts := counts.(regex := counts.regex + count);
      case Denylist => counts := counts.(denylist := counts.denylist + count);
      case GravityCname => counts := counts.(gravityCname := counts.gravityCname + count);
      case _ => counts := counts.(unknown := counts.unknown + count);
    }
  }

  /** `status` gained `count` answers and no other status changed. */
  ghost predicate Moved(before: StatusCounts, after: StatusCounts, status: Status, count: nat) {
    && (forall s: Status :: after.Of(s) == before.Of(s) + if s == status then count else 0)
    && after.Total() == before.Total() + count
  }

  function Get(stats: SourceStats, key: string): nat {
    if key in stats then stats[key] else 0
  }

  /** The sources counted under `status`. */
  ghost function Under(stats: SourceStats, status: Status): SourceStats {
    map key | key in stats && StatusOf(key) == status :: stats[key]
  }

  ghost function StatusTotal(stats: SourceStats, status: Status): nat {
    Sum(Under(stats, status))
  }

  /** The counters after some of the sources, whatever their order. */
  ghost predicate Tallies(seen: SourceStats, c: StatusCounts) {
    && (forall s: Status :: c.Of(s) == StatusTotal(seen, s))
    && c.Total() == Sum(seen)
  }

  method CountStatuses(stats: SourceStats) returns (counts: StatusCounts)
    ensures Tallies(stats, counts)
  {
    var status := new QueryStatusCounts();
    var rest := stats.Keys;
    NothingCounted(stats - rest, status.counts);
    while rest != {}
      invariant rest <= stats.Keys
      invariant Tallies(stats - rest, status.counts)
    {
      var key :| key in rest;
      ghost var before := status.counts;
      status.Add(StatusOf(key), stats[key]);
      TallyStep(stats, rest, key, before, status.counts);
      rest := rest - {key};
    }
    assert stats - rest == stats;
    counts := status.counts;
  }

  lemma StatusTotalStep(seen: SourceStats, key: string, count: nat, status: Status)
    requires key !in seen
    ensures StatusTotal(seen[key := count], status) ==
            StatusTotal(seen, status) + if StatusOf(key) == status then count else 0
  {
    if StatusOf(key) == status {
      assert Under(seen[key := count], status) == Under(seen, status)[key := count];
      SumUpdate(Under(seen, status), key, count);
    } else {
      assert Under(seen[key := count], status) == Under(seen, status);
    }
  }

  lemma TallyMore(seen: SourceStats, key: string, count: nat, before: StatusCounts, after: StatusCounts)
    requires key !in seen && Tallies(seen, before) && Moved(before, after, StatusOf(key), count)
    ensures Tallies(seen[key := count], after)
  {
    forall s: Status ensures after.Of(s) == StatusTotal(seen[key := count], s) {
      StatusTotalStep(seen, key, count, s);
    }
    SumUpdate(seen, key, count);
  }

  lemma TallyStep(stats: SourceStats, rest: set<string>, key: string, before: StatusCounts, after: StatusCounts)
    requires key in rest && key in stats && Tallies(stats - rest, before)
    requires Moved(before, after, StatusOf(key), stats[key])
    ensures Tallies(stats - (rest - {key}), after)
  {
    TallyMore(stats - rest, key, stats[key], before, after);
    assert stats - (rest - {key}) == (stats - rest)[key := stats[key]];
  }

  lemma NothingCounted(seen: SourceStats, none: StatusCounts)
    requires seen == map[] && none == StatusCounts(0, 0, 0, 0, 0, 0, 0)
    ensures Tallies(seen, none)
  {
    forall s: Status ensures none.Of(s) == StatusTotal(seen, s) {
      assert Under(seen, s) == map[];
    }
  }

  /** Every source counts under a status FTL knows, and FORWARDED is exactly the upstream sources. */
  lemma StatusExactly(key: string)
    ensures StatusOf(key) != Unknown
    ensures StatusOf(key) == Forwarded <==> IsUpstreamKey(key)
    ensures StatusOf(key) == Cache <==> IsLocalKey(key)
  {
    assert ':' !in CACHE_KEY && ':' !in LOCAL_DNS_KEY;
  }

  lemma ForwardedAgrees(stats: SourceStats)
    ensures StatusTotal(stats, Forwarded) == ForwardedCount(stats)
  {
    forall key ensures StatusOf(key) == Forwarded <==> IsUpstreamKey(key) {
      StatusExactly(key);
    }
    assert Under(stats, Forwarded)
        == (map key | key in stats && IsUpstreamKey(key) :: stats[key]);
  }

  lemma UnknownStaysZero(stats: SourceStats)
    ensures StatusTotal(stats, Unknown) == 0
  {
    forall key ensures StatusOf(key) != Unknown {
      StatusExactly(key);
    }
    assert Under(stats, Unknown) == map[];
  }

  /** The total of the two sources, taken one key at a time. */
  lemma SumOfPair(m: map<string, nat>, a: string, b: string)
    requires a != b && m.Keys <= {a, b}
    ensures Sum(m) == Get(m, a) + Get(m, b)
  {
    var rest := m - {a};
    if a in m {
      SumRemove(m, a);
    } else {
      assert rest == m;
    }
    if b in rest {
      SumRemove(rest, b);
      assert rest - {b} == map[];
    } else {
      assert rest == map[];
    }
  }

  lemma CachedAgrees(stats: SourceStats)
    ensures StatusTotal(stats, Cache) == Get(stats, CACHE_KEY) + Get(stats, LOCAL_DNS_KEY)
  {
    forall key ensures StatusOf(key) == Cache <==> IsLocalKey(key) {
      StatusExactly(key);
    }
    assert |CACHE_KEY| != |LOCAL_DNS_KEY|;
    SumOfPair(Under(stats, Cache), CACHE_KEY, LOCAL_DNS_KEY);
  }

  lemma CounterOf(stats: SourceStats, c: StatusCounts, status: Status)
    requires Tallies(stats, c)
    ensures c.Of(status) == StatusTotal(stats, status)
  {
  }

  lemma CountersByStatus(stats: SourceStats, c: StatusCounts)
    requires Tallies(stats, c)
    ensures c.forwarded == StatusTotal(stats, Forwarded) && c.cache == StatusTotal(stats, Cache)
    ensures c.unknown == StatusTotal(stats, Unknown)
  {
    CounterOf(stats, c, Forwarded);
    CounterOf(stats, c, Cache);
    CounterOf(stats, c, Unknown);
  }

  /** The counters of any summary agree with its other figures: FORWARDED with `forwarded`,
      CACHE with `cached`; nothing is UNKNOWN; and every answer is counted exactly once. */
  lemma SummaryAgrees(stats: SourceStats, c: StatusCounts)
    requires Tallies(stats, c)
    ensures c.forwarded == ForwardedCount(stats)
    ensures c.cache == Get(stats, CACHE_KEY) + Get(stats, LOCAL_DNS_KEY)
    ensures c.unknown == 0
    ensures c.gravity + c.forwarded + c.cache + c.regex + c.denylist + c.gravityCname == Sum(stats)
  {
    ForwardedAgrees(stats);
    CachedAgrees(stats);
    UnknownStaysZero(stats);
    CountersByStatus(stats, c);
  }

  // ----- the counters by the names of the sources

  /** The first entry of a name is the one that is read. */
  lemma {:induction false} ParsesFirst(name: string, table: seq<(string, BlockSource)>, i: nat)
    requires i < |table| && table[i].0 == name && forall j :: 0 <= j < i ==> table[j].0 != name
    ensures Parse(name, table) == Some(table[i].1)
  {
    if i > 0 {
      assert table[0].0 != name;
      ParsesFirst(name, table[1..], i - 1);
    }
  }

  lemma {:induction false} ParsedEntry(name: string, table: seq<(string, BlockSource)>) returns (i: nat)
    requires Parse(name, table).Some?
    ensures i < |table| && table[i] == (name, Parse(name, table).value)
  {
    i := 0;
    if table[0].0 != name {
      i := ParsedEntry(name, table[1..]);
      i := i + 1;
    }
  }

  const REGEX_KEY := "regex_filter"
  const DENY_KEY := "managed_domain"
  const CNAME_KEY := "cname_cloaking"

  lemma NamedSources()
    ensures Parse(REGEX_KEY, BLOCK_SOURCES) == Some(RegexFilter)
    ensures Parse(DENY_KEY, BLOCK_SOURCES) == Some(ManagedDomain)
    ensures Parse(CNAME_KEY, BLOCK_SOURCES) == Some(CnameCloaking)
  {
    assert REGEX_KEY[0] == 'r' && DENY_KEY[0] == 'm' && CNAME_KEY[0] == 'c';
    assert BLOCK_SOURCES[0].0[0] == 'b';
    ParsesFirst(DENY_KEY, BLOCK_SOURCES, 1);
    ParsesFirst(REGEX_KEY, BLOCK_SOURCES, 2);
    ParsesFirst(CNAME_KEY, BLOCK_SOURCES, 3);
  }

  lemma OnlyNamedSources(key: string)
    ensures Parse(key, BLOCK_SOURCES) == Some(RegexFilter) ==> key == REGEX_KEY
    ensures Parse(key, BLOCK_SOURCES) == Some(ManagedDomain) ==> key == DENY_KEY
    ensures Parse(key, BLOCK_SOURCES) == Some(CnameCloaking) ==> key == CNAME_KEY
  {
    if Parse(key, BLOCK_SOURCES).Some? {
      var i := ParsedEntry(key, BLOCK_SOURCES);
    }
  }

  lemma BlockKeysAreBlocked()
    ensures !IsLocalKey(REGEX_KEY) && !IsUpstreamKey(REGEX_KEY)
    ensures !IsLocalKey(DENY_KEY) && !IsUpstreamKey(DENY_KEY)
    ensures !IsLocalKey(CNAME_KEY) && !IsUpstreamKey(CNAME_KEY)
  {
    assert |REGEX_KEY| == 12 && |DENY_KEY| == 14 && |CNAME_KEY| == 14;
    assert |CACHE_KEY| == 5 && |LOCAL_DNS_KEY| == 9;
  }

  lemma OneSourceEach(key: string)
    ensures StatusOf(key) == Regex <==> key == REGEX_KEY
    ensures StatusOf(key) == Denylist <==> key == DENY_KEY
    ensures StatusOf(key) == GravityCname <==> key == CNAME_KEY
  {
    NamedSources();
    OnlyNamedSources(key);
    BlockKeysAreBlocked();
  }

  /** The total of one source. */
  lemma TotalOfOne(stats: SourceStats, status: Status, key: string)
    requires forall k :: StatusOf(k) == status <==> k == key
    ensures StatusTotal(stats, status) == Get(stats, key)
  {
    var under := Under(stats, status);
    if key in stats {
      assert under == map[key := stats[key]];
      SumRemove(under, key);
      assert under - {key} == map[];
    } else {
      assert under == map[];
    }
  }

  lemma BlockedBySource(stats: SourceStats)
    ensures StatusTotal(stats, Regex) == Get(stats, REGEX_KEY)
    ensures StatusTotal(stats, Denylist) == Get(stats, DENY_KEY)
    ensures StatusTotal(stats, GravityCname) == Get(stats, CNAME_KEY)
  {
    forall key
      ensures StatusOf(key) == Regex <==> key == REGEX_KEY
      ensures StatusOf(key) == Denylist <==> key == DENY_KEY
      ensures StatusOf(key) == GravityCname <==> key == CNAME_KEY {
      OneSourceEach(key);
    }
    TotalOfOne(stats, Regex, REGEX_KEY);
    TotalOfOne(stats, Denylist, DENY_KEY);
    TotalOfOne(stats, GravityCname, CNAME_KEY);
  }

  lemma ForwardedHasColon(stats: SourceStats)
    ensures ForwardedCount(stats) == Sum(map key | key in stats && ':' in key :: stats[key])
  {
    assert (map key | key in stats && ':' in key :: stats[key])
        == (map key | key in stats && IsUpstreamKey(key) :: stats[key]);
  }

  lemma CountsByKey(stats: SourceStats, c: StatusCounts)
    requires Tallies(stats, c)
    ensures c.regex == Get(stats, REGEX_KEY) && c.denylist == Get(stats, DENY_KEY)
    ensures c.gravityCname == Get(stats, CNAME_KEY)
  {
    BlockedBySource(stats);
    CounterOf(stats, c, Regex);
    CounterOf(stats, c, Denylist);
    CounterOf(stats, c, GravityCname);
  }

  /** Each counter by the names of its sources: regex filters under REGEX, managed domains
      under DENYLIST, cloaked names under GRAVITY_CNAME, the cache and local configuration
      under CACHE, keys with a colon under FORWARDED, and everything else under GRAVITY. */
  lemma CountsBySource(stats: SourceStats, c: StatusCounts)
    requires Tallies(stats, c)
    ensures c.regex == Get(stats, "regex_filter")
    ensures c.denylist == Get(stats, "managed_domain")
    ensures c.gravityCname == Get(stats, "cname_cloaking")
    ensures c.cache == Get(stats, "cache") + Get(stats, "local_dns")
    ensures c.forwarded == Sum(map key | key in stats && ':' in key :: stats[key])
    ensures c.unknown == 0
    ensures c.gravity + c.regex + c.denylist + c.gravityCname + c.cache + c.forwarded == Sum(stats)
  {
    CountsByKey(stats, c);
    SummaryAgrees(stats, c);
    ForwardedHasColon(stats);
  }
}
