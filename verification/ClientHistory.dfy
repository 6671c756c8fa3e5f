/** GET /history/clients: the busiest clients get a series each over 145 ten-minute
    buckets, and every other client's queries are summed under "others". */
module ClientHistory {
  import opened MachineWords
  import opened Options
  import opened Sums

  const BUCKET_SECS := 600
  const BUCKETS := 145
  const DEFAULT_MAX_CLIENTS: nat := 10
  const OTHERS_KEY := "others"
  const OTHERS_NAME := "other clients"

  /** A client of the ranking, busiest first. */
  datatype Ranked = Ranked(ip: string, hostname: Option<string>, total: nat)

  /** Queries of one bucket; no client stands for every client outside the named ones. */
  datatype Row = Row(bucket: int, client: Option<string>, count: nat)

  datatype Bucket = Bucket(timestamp: int, data: map<string, nat>)

  datatype Series = Series(name: Option<string>, total: nat)

  type Counts = map<(int, Option<string>), nat>

  // ----- the buckets

  function Oldest(now: int): int {
    now - now % BUCKET_SECS - (BUCKETS - 1) * BUCKET_SECS
  }

  function Starts(now: int, n: nat): (starts: seq<int>)
    ensures |starts| == n
  {
    if n == 0 then [] else Starts(now, n - 1) + [Oldest(now) + (n - 1) * BUCKET_SECS]
  }

  function HistoryBuckets(now: int): seq<int> {
    Starts(now, BUCKETS)
  }

  lemma {:induction false} StartAt(now: int, n: nat, i: nat)
    requires i < n
    ensures Starts(now, n)[i] == Oldest(now) + i * BUCKET_SECS
  {
    if i < n - 1 {
      StartAt(now, n - 1, i);
    }
  }

  /** The buckets are ten minutes long; the last one is running, and the first began a day before it. */
  lemma BucketStarts(now: int, i: nat)
    requires i < 145
    ensures |HistoryBuckets(now)| == 145
    ensures HistoryBuckets(now)[i] == now - now % 600 - 86400 + 600 * i
  {
    StartAt(now, BUCKETS, i);
  }

  /** The bucket a moment's queries are counted in. */
  function BucketOf(time: int): int {
    time - time % BUCKET_SECS
  }

  lemma OldestIsAligned(now: int)
    ensures Oldest(now) == BUCKET_SECS * (now / BUCKET_SECS - (BUCKETS - 1))
  {}

  /** Every moment of the window belongs to exactly one bucket, and no bucket lies outside it. */
  lemma BucketsCoverTheWindow(now: int, time: int)
    ensures BucketOf(time) in HistoryBuckets(now) <==> Oldest(now) <= time < Oldest(now) + BUCKETS * BUCKET_SECS
    ensures Oldest(now) <= now < Oldest(now) + BUCKETS * BUCKET_SECS
  {
    OldestIsAligned(now);
    var q, oldest := time / BUCKET_SECS, now / BUCKET_SECS - (BUCKETS - 1);
    assert BucketOf(time) == BUCKET_SECS * q && BUCKET_SECS * q <= time < BUCKET_SECS * q + BUCKET_SECS;
    if Oldest(now) <= time < Oldest(now) + BUCKETS * BUCKET_SECS {
      StartAt(now, BUCKETS, q - oldest);
    }
    if BucketOf(time) in HistoryBuckets(now) {
      var i: nat :| i < BUCKETS && HistoryBuckets(now)[i] == BucketOf(time);
      StartAt(now, BUCKETS, i);
    }
  }

  lemma StartsAreDistinct(now: int, n: nat)
    ensures Oldest(now) + n * BUCKET_SECS !in Starts(now, n)
  {
    if Oldest(now) + n * BUCKET_SECS in Starts(now, n) {
      var i: nat :| i < n && Starts(now, n)[i] == Oldest(now) + n * BUCKET_SECS;
      StartAt(now, n, i);
    }
  }

  // ----- totals over rows

  ghost function Total(rows: seq<Row>, p: Row -> bool): nat {
    if rows == [] then 0
    else
      var row := rows[|rows| - 1];
      Total(rows[..|rows| - 1], p) + if p(row) then row.count else 0
  }

  ghost function At(start: int, client: Option<string>): Row -> bool {
    (row: Row) => row.bucket == start && row.client == client
  }

  ghost function AtAny(start: int, clients: set<string>): Row -> bool {
    (row: Row) => row.bucket == start && row.client.Some? && row.client.value in clients
  }

  ghost function In(start: int): Row -> bool {
    (row: Row) => row.bucket == start
  }

  ghost function Within(starts: seq<int>): Row -> bool {
    (row: Row) => row.bucket in starts
  }

  lemma {:induction false} TotalSplit(rows: seq<Row>, whole: Row -> bool, p: Row -> bool, q: Row -> bool)
    requires forall row <- rows :: whole(row) == (p(row) || q(row)) && !(p(row) && q(row))
    ensures Total(rows, whole) == Total(rows, p) + Total(rows, q)
    decreases |rows|
  {
    if rows != [] {
      assert rows[|rows| - 1] in rows;
      TotalSplit(rows[..|rows| - 1], whole, p, q);
    }
  }

  lemma {:induction false} TotalOfNone(rows: seq<Row>, p: Row -> bool)
    requires forall row <- rows :: !p(row)
    ensures Total(rows, p) == 0
    decreases |rows|
  {
    if rows != [] {
      assert rows[|rows| - 1] in rows;
      TotalOfNone(rows[..|rows| - 1], p);
    }
  }

  ghost function NamedOthers(starts: seq<int>): Row -> bool {
    (row: Row) => row.client == Some(OTHERS_KEY) && row.bucket in starts
  }

  // ----- the counts table

  function Find(counts: Counts, start: int, client: Option<string>): nat {
    if (start, client) in counts then counts[(start, client)] else 0
  }

  ghost predicate Counted(counts: Counts, rows: seq<Row>) {
    forall start, client :: Find(counts, start, client) == Total(rows, At(start, client))
  }

  lemma CountStep(counts: Counts, rows: seq<Row>, row: Row)
    requires Counted(counts, rows)
    ensures Counted(Added(counts, (row.bucket, row.client), row.count), rows + [row])
  {
    var counts' := Added(counts, (row.bucket, row.client), row.count);
    forall start, client ensures Find(counts', start, client) == Total(rows + [row], At(start, client)) {
      assert (rows + [row])[..|rows|] == rows;
      assert Find(counts, start, client) == Total(rows, At(start, client));
    }
  }

  method CountRows(activity: seq<Row>) returns (counts: Counts)
    ensures Counted(counts, activity)
  {
    counts := map[];
    for i := 0 to |activity|
      invariant Counted(counts, activity[..i])
    {
      var row := activity[i];
      CountStep(counts, activity[..i], row);
      assert activity[..i] + [row] == activity[..i + 1];
      counts := Added(counts, (row.bucket, row.client), row.count);
    }
    assert activity[..|activity|] == activity;
  }

  // ----- one bucket

  /** Each of `clients` with its queries of the bucket. */
  ghost function PerClient(clients: set<string>, rows: seq<Row>, start: int): map<string, nat> {
    map ip | ip in clients :: Total(rows, At(start, Some(ip)))
  }

  function Keys(named: seq<string>): set<string> {
    set ip | ip in named
  }

  /** What a bucket must show: the named clients' queries, then "others". */
  ghost function Data(named: seq<string>, rows: seq<Row>, start: int): map<string, nat> {
    PerClient(Keys(named), rows, start)[OTHERS_KEY := Total(rows, At(start, None))]
  }

  method BucketData(named: seq<string>, counts: Counts, start: int, ghost rows: seq<Row>)
    returns (data: map<string, nat>, others: nat)
    requires Counted(counts, rows)
    ensures data == Data(named, rows, start)
    ensures others == Total(rows, At(start, None))
  {
    data := map[];
    for i := 0 to |named|
      invariant data == PerClient(Keys(named[..i]), rows, start)
    {
      data := data[named[i] := Find(counts, start, Some(named[i]))];
      assert named[..i + 1] == named[..i] + [named[i]];
    }
    assert named[..|named|] == named;
    others := Find(counts, start, None);
    data := data[OTHERS_KEY := others];
  }

  // ----- the whole reply

  ghost function History(named: seq<string>, rows: seq<Row>, starts: seq<int>): seq<Bucket> {
    seq(|starts|, i requires 0 <= i < |starts| =>
      Bucket(starts[i] + BUCKET_SECS / 2, Data(named, rows, starts[i])))
  }

  /** A reply's buckets, each stamped with its middle and showing the named clients and "others". */
  lemma HistoryAt(named: seq<string>, rows: seq<Row>, now: int, i: nat)
    requires i < 145
    ensures var history, start := History(named, rows, HistoryBuckets(now)), now - now % 600 - 86400 + 600 * i;
            && |history| == 145 && history[i].timestamp == start + 300
            && history[i].data.Keys == Keys(named) + {"others"}
            && history[i].data["others"] == Total(rows, At(start, None))
            && forall ip :: ip in named && ip != "others" ==> history[i].data[ip] == Total(rows, At(start, Some(ip)))
  {
    BucketStarts(now, i);
  }

  /** The queries folded into "others" over all buckets. */
  ghost function OthersTotal(rows: seq<Row>, starts: seq<int>): nat {
    if starts == [] then 0
    else OthersTotal(rows, starts[..|starts| - 1]) + Total(rows, At(starts[|starts| - 1], None))
  }

  /** What the buckets of a reply show under "others". */
  ghost function OthersShown(history: seq<Bucket>): nat {
    if history == [] then 0
    else
      var data := history[|history| - 1].data;
      OthersShown(history[..|history| - 1]) + if OTHERS_KEY in data then data[OTHERS_KEY] else 0
  }

  lemma {:induction false} OthersTotalIsShown(named: seq<string>, rows: seq<Row>, starts: seq<int>)
    ensures OthersShown(History(named, rows, starts)) == OthersTotal(rows, starts)
    decreases |starts|
  {
    if starts != [] {
      var front := starts[..|starts| - 1];
      OthersTotalIsShown(named, rows, front);
      assert History(named, rows, starts)[..|front|] == History(named, rows, front);
    }
  }

  method BucketsOf(named: seq<string>, counts: Counts, starts: seq<int>, ghost rows: seq<Row>)
    returns (history: seq<Bucket>, othersTotal: nat)
    requires Counted(counts, rows)
    ensures history == History(named, rows, starts)
    ensures othersTotal == OthersTotal(rows, starts)
  {
    history, othersTotal := [], 0;
    for i := 0 to |starts|
      invariant history == History(named, rows, starts[..i])
      invariant othersTotal == OthersTotal(rows, starts[..i])
    {
      var data, others := BucketData(named, counts, starts[i], rows);
      assert starts[..i + 1][..i] == starts[..i];
      othersTotal := othersTotal + others;
      history := history + [Bucket(starts[i] + BUCKET_SECS / 2, data)];
    }
    assert starts[..|starts|] == starts;
  }

  /** How many of the ranking to read: one more than fits tells whether to fold. */
  function Fetch(maxClients: nat): nat
    requires maxClients <= U32_MAX
  {
    if maxClients == 0 then U32_MAX
    else if maxClients == U32_MAX then U32_MAX
    else maxClients + 1
  }

  function Take<T>(s: seq<T>, n: nat): seq<T> {
    if |s| <= n then s else s[..n]
  }

  function Names(ranked: seq<Ranked>): (names: seq<string>)
    ensures |names| == |ranked|
    ensures forall i :: 0 <= i < |names| ==> names[i] == ranked[i].ip
  {
    if ranked == [] then [] else Names(ranked[..|ranked| - 1]) + [ranked[|ranked| - 1].ip]
  }

  function SeriesOf(client: Ranked): Series {
    Series(if client.hostname == Some("") then None else client.hostname, client.total)
  }

  function OwnSeries(ranked: seq<Ranked>): (series: map<string, Series>)
    ensures |series| <= |ranked|
    ensures series.Keys == Keys(Names(ranked))
  {
    if ranked == [] then map[]
    else
      var client := ranked[|ranked| - 1];
      OwnSeries(ranked[..|ranked| - 1])[client.ip := SeriesOf(client)]
  }

  /** A client ranked once keeps its own name and total. */
  lemma {:induction false} RankedOnceKeepsItsSeries(ranked: seq<Ranked>, i: nat)
    requires i < |ranked|
    requires forall j :: 0 <= j < |ranked| && ranked[j].ip == ranked[i].ip ==> j == i
    ensures ranked[i].ip in OwnSeries(ranked)
    ensures var series := OwnSeries(ranked)[ranked[i].ip];
            && series.total == ranked[i].total
            && series.name == if ranked[i].hostname == Some("") then None else ranked[i].hostname
    decreases |ranked|
  {
    var front := ranked[..|ranked| - 1];
    if i < |front| {
      assert ranked[|front|].ip != ranked[i].ip;
      RankedOnceKeepsItsSeries(front, i);
    }
  }

  /** The reply's clients: a series per ranked client, and "others" when clients were folded. */
  ghost predicate IsSeries(clients: map<string, Series>, ranked: seq<Ranked>, folded: bool, othersTotal: nat) {
    clients ==
      if folded then OwnSeries(ranked)[OTHERS_KEY := Series(Some(OTHERS_NAME), othersTotal)]
      else OwnSeries(ranked)
  }

  /** Folded clients appear as "other clients", under "others". */
  lemma FoldedAreShown(clients: map<string, Series>, ranked: seq<Ranked>, othersTotal: nat)
    requires IsSeries(clients, ranked, true, othersTotal)
    ensures "others" in clients && clients["others"] == Series(Some("other clients"), othersTotal)
    ensures clients.Keys == Keys(Names(ranked)) + {"others"}
  {
  }

  method ClientSeries(ranked: seq<Ranked>, folded: bool, othersTotal: nat)
    returns (clients: map<string, Series>)
    ensures IsSeries(clients, ranked, folded, othersTotal)
  {
    clients := map[];
    for i := 0 to |ranked|
      invariant clients == OwnSeries(ranked[..i])
    {
      assert ranked[..i + 1][..i] == ranked[..i];
      clients := clients[ranked[i].ip := SeriesOf(ranked[i])];
    }
    assert ranked[..|ranked|] == ranked;
    if folded {
      clients := clients[OTHERS_KEY := Series(Some(OTHERS_NAME), othersTotal)];
    }
  }

  /** The clients given a series of their own, and whether the rest are folded. */
  method RankClients(ranking: seq<Ranked>, maxClients: nat) returns (ranked: seq<Ranked>, folded: bool)
    requires maxClients <= U32_MAX && |ranking| <= U32_MAX
    ensures folded <==> 0 < maxClients < |ranking|
    ensures ranked == if folded then ranking[..maxClients - 1] else ranking
  {
    ranked := Take(ranking, Fetch(maxClients));
    folded := maxClients != 0 && |ranked| > maxClients;
    if folded {
      ranked := ranked[..maxClients - 1];
    }
  }

  /** `ranking` is every client of the window, busiest first, and `activity` answers for
      the named clients; both are the query log's. */
  method GetHistoryClients(
    n: Option<nat>, now: int, ranking: seq<Ranked>, activity: seq<string> -> seq<Row>)
    returns (history: seq<Bucket>, clients: map<string, Series>, ghost ranked: seq<Ranked>, ghost folded: bool)
    requires n.Some? ==> n.value <= U32_MAX
    requires |ranking| <= U32_MAX
    ensures folded <==> 0 < n.GetOr(10) < |ranking|
    ensures ranked == if folded then ranking[..n.GetOr(10) - 1] else ranking
    ensures history == History(Names(ranked), activity(Names(ranked)), HistoryBuckets(now))
    ensures IsSeries(clients, ranked, folded, OthersTotal(activity(Names(ranked)), HistoryBuckets(now)))
    ensures n.GetOr(10) != 0 ==> |clients| <= n.GetOr(10)
  {
    var maxClients := n.GetOr(DEFAULT_MAX_CLIENTS);
    var starts := HistoryBuckets(now);
    var top, others := RankClients(ranking, maxClients);
    ranked, folded := top, others;
    var names := Names(top);
    var rows := activity(names);
    var counts := CountRows(rows);
    var othersTotal;
    history, othersTotal := BucketsOf(names, counts, starts, rows);
    clients := ClientSeries(top, others, othersTotal);
  }

  // ----- conservation

  lemma {:induction false} NamedTotal(clients: set<string>, rows: seq<Row>, start: int)
    ensures Sum(PerClient(clients, rows, start)) == Total(rows, AtAny(start, clients))
    decreases |rows|
  {
    if rows == [] {
      NoRows(clients, start);
    } else {
      var front, row := rows[..|rows| - 1], rows[|rows| - 1];
      NamedTotal(clients, front, start);
      RowCountsOnce(clients, front, row, start);
      assert front + [row] == rows;
    }
  }

  lemma {:induction false} NoRows(clients: set<string>, start: int)
    ensures Sum(PerClient(clients, [], start)) == 0
    decreases |clients|
  {
    var zeros := PerClient(clients, [], start);
    if clients != {} {
      var ip :| ip in clients;
      SumRemove(zeros, ip);
      assert zeros - {ip} == PerClient(clients - {ip}, [], start);
      NoRows(clients - {ip}, start);
    } else {
      assert zeros == map[];
    }
  }

  lemma RowCountsOnce(clients: set<string>, rows: seq<Row>, row: Row, start: int)
    ensures Sum(PerClient(clients, rows + [row], start)) ==
            Sum(PerClient(clients, rows, start)) + if AtAny(start, clients)(row) then row.count else 0
  {
    assert (rows + [row])[..|rows|] == rows;
    if AtAny(start, clients)(row) {
      var ip, before := row.client.value, PerClient(clients, rows, start);
      assert PerClient(clients, rows + [row], start) == before[ip := before[ip] + row.count];
      SumUpdate(before, ip, before[ip] + row.count);
    } else {
      assert PerClient(clients, rows + [row], start) == PerClient(clients, rows, start);
    }
  }

  /** The rows a query log returns for the named clients name nobody else. */
  ghost predicate OnlyNamed(rows: seq<Row>, named: seq<string>) {
    forall row <- rows :: row.client.Some? ==> row.client.value in named
  }

  /** Queries of a client whose address is the text "others": its own series is overwritten. */
  ghost function Lost(named: seq<string>, rows: seq<Row>, start: int): nat {
    if OTHERS_KEY in named then Total(rows, At(start, Some(OTHERS_KEY))) else 0
  }

  /** A bucket's values add up to its queries, but for the ones lost to that clash. */
  lemma BucketConserves(named: seq<string>, rows: seq<Row>, start: int)
    requires OnlyNamed(rows, named)
    ensures Sum(Data(named, rows, start)) + Lost(named, rows, start) == Total(rows, In(start))
  {
    var clients := Keys(named);
    NamedTotal(clients, rows, start);
    SumUpdate(PerClient(clients, rows, start), OTHERS_KEY, Total(rows, At(start, None)));
    TotalSplit(rows, In(start), AtAny(start, clients), At(start, None));
  }

  ghost function WindowTotal(named: seq<string>, rows: seq<Row>, starts: seq<int>): nat {
    if starts == [] then 0
    else WindowTotal(named, rows, starts[..|starts| - 1]) + Sum(Data(named, rows, starts[|starts| - 1]))
  }

  ghost function LostTotal(named: seq<string>, rows: seq<Row>, starts: seq<int>): nat {
    if starts == [] then 0
    else LostTotal(named, rows, starts[..|starts| - 1]) + Lost(named, rows, starts[|starts| - 1])
  }

  lemma NoBuckets(named: seq<string>, rows: seq<Row>, starts: seq<int>)
    requires starts == []
    ensures WindowTotal(named, rows, starts) + LostTotal(named, rows, starts) == Total(rows, Within(starts))
  {
    TotalOfNone(rows, Within(starts));
  }

  lemma OneMoreBucket(named: seq<string>, rows: seq<Row>, starts: seq<int>, start: int)
    requires OnlyNamed(rows, named) && start !in starts
    requires WindowTotal(named, rows, starts) + LostTotal(named, rows, starts) == Total(rows, Within(starts))
    ensures WindowTotal(named, rows, starts + [start]) + LostTotal(named, rows, starts + [start])
         == Total(rows, Within(starts + [start]))
  {
    BucketConserves(named, rows, start);
    TotalSplit(rows, Within(starts + [start]), Within(starts), In(start));
    assert (starts + [start])[..|starts|] == starts;
  }

  /** Each start differs from the ones before it. */
  ghost predicate AllDistinct(starts: seq<int>) {
    starts == [] || (starts[|starts| - 1] !in starts[..|starts| - 1] && AllDistinct(starts[..|starts| - 1]))
  }

  lemma {:induction false} BucketsAreDistinct(now: int, n: nat)
    ensures AllDistinct(Starts(now, n))
    decreases n
  {
    if n > 0 {
      BucketsAreDistinct(now, n - 1);
      StartsAreDistinct(now, n - 1);
      assert Starts(now, n)[..n - 1] == Starts(now, n - 1);
    }
  }

  lemma {:induction false} BucketsConserve(named: seq<string>, rows: seq<Row>, starts: seq<int>)
    requires OnlyNamed(rows, named) && AllDistinct(starts)
    ensures WindowTotal(named, rows, starts) + LostTotal(named, rows, starts) == Total(rows, Within(starts))
    decreases |starts|
  {
    if starts == [] {
      NoBuckets(named, rows, starts);
    } else {
      var front, start := starts[..|starts| - 1], starts[|starts| - 1];
      BucketsConserve(named, rows, front);
      OneMoreBucket(named, rows, front, start);
      assert front + [start] == starts;
    }
  }

  /** Over the 145 buckets every query of the window is shown exactly once, if and only if
      no named client called "others" has queries in it. */
  lemma HistoryConservesExactly(named: seq<string>, rows: seq<Row>, now: int)
    requires OnlyNamed(rows, named)
    ensures WindowTotal(named, rows, HistoryBuckets(now)) == Total(rows, Within(HistoryBuckets(now)))
       <==> (OTHERS_KEY in named ==> Total(rows, NamedOthers(HistoryBuckets(now))) == 0)
  {
    BucketsAreDistinct(now, BUCKETS);
    BucketsConserve(named, rows, HistoryBuckets(now));
    LostExactly(named, rows, HistoryBuckets(now));
  }

  /** The text of an IP address: hexadecimal digits, dots and colons. */
  predicate IsAddressText(ip: string) {
    forall c <- ip :: '0' <= c <= '9' || 'a' <= c <= 'f' || c == '.' || c == ':'
  }

  lemma OthersIsNoAddress()
    ensures !IsAddressText(OTHERS_KEY)
  {
    assert OTHERS_KEY[0] == 'o' && OTHERS_KEY[0] in OTHERS_KEY;
  }

  lemma OthersIsNotNamed(named: seq<string>)
    requires forall ip <- named :: IsAddressText(ip)
    ensures OTHERS_KEY !in named
  {
    OthersIsNoAddress();
  }

  /** Clients are logged by IP address, so every bucket's values add up to its queries. */
  lemma AddressBucketsConserve(named: seq<string>, rows: seq<Row>, start: int)
    requires OnlyNamed(rows, named) && forall ip <- named :: IsAddressText(ip)
    ensures Sum(Data(named, rows, start)) == Total(rows, In(start))
  {
    OthersIsNotNamed(named);
    BucketConserves(named, rows, start);
  }

  /** And over the 145 buckets every query of the window is shown exactly once. */
  lemma AddressHistoryConserves(named: seq<string>, rows: seq<Row>, now: int)
    requires OnlyNamed(rows, named) && forall ip <- named :: IsAddressText(ip)
    ensures WindowTotal(named, rows, HistoryBuckets(now)) == Total(rows, Within(HistoryBuckets(now)))
  {
    OthersIsNotNamed(named);
    HistoryConservesExactly(named, rows, now);
  }

  lemma {:induction false} LostExactly(named: seq<string>, rows: seq<Row>, starts: seq<int>)
    requires AllDistinct(starts)
    ensures LostTotal(named, rows, starts) ==
            if OTHERS_KEY in named then Total(rows, NamedOthers(starts)) else 0
    decreases |starts|
  {
    if starts == [] {
      TotalOfNone(rows, NamedOthers(starts));
    } else {
      var front, start := starts[..|starts| - 1], starts[|starts| - 1];
      LostExactly(named, rows, front);
      assert front + [start] == starts;
      TotalSplit(rows, NamedOthers(starts), NamedOthers(front), At(start, Some(OTHERS_KEY)));
    }
  }
}
