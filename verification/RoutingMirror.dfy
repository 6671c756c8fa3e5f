/** The backend's check of a saved configuration's pools, and its agreement with the form's. */
module RoutingMirror {
  import opened Ascii
  import opened Claims
  import opened MachineWords
  import opened Options
  import opened PoolCleaning
  import opened Routing

  /** The routing fields of a pool as the backend receives it. */
  datatype UpstreamPool = UpstreamPool(name: string, domains: seq<string>, groups: seq<int>, internal: bool)

  // ----- one domain

  /** The Unicode White_Space characters. */
  predicate IsWhiteSpace(c: char) {
    || '\t' <= c <= '\r' || c == ' ' || c == '\U{0085}' || c == '\U{00A0}' || c == '\U{1680}'
    || '\U{2000}' <= c <= '\U{200A}' || c == '\U{2028}' || c == '\U{2029}' || c == '\U{202F}' || c == '\U{205F}'
    || c == '\U{3000}'
  }

  function BackendTrimStart(s: string): string {
    if s != [] && IsWhiteSpace(s[0]) then BackendTrimStart(s[1..]) else s
  }

  function BackendTrimEnd(s: string): string {
    if s != [] && IsWhiteSpace(s[|s| - 1]) then BackendTrimEnd(s[..|s| - 1]) else s
  }

  function ValidateDomain(domain: string): Option<Reason> {
    if domain == [] then Some(EmptyDomain)
    else if |domain| > MAX_NAME_LEN then Some(TooLong)
    else if '*' in domain then Some(WildcardInName)
    else FirstLabelError(Split(domain))
  }

  /** `idna` gives the punycode of a domain that is not ASCII. */
  function NormalizeRouteDomain(domain: string, idna: string -> Option<string>): Result<string, Reason> {
    var trimmed := StripDots(BackendTrimEnd(BackendTrimStart(domain)));
    if '*' in trimmed then Err(Wildcard)
    else
      var ascii := if IsAscii(trimmed) then Some(Lower(trimmed)) else idna(trimmed);
      if ascii.None? then Err(NotADomain)
      else match ValidateDomain(ascii.value)
        case Some(reason) => Err(reason)
        case None => Ok(ascii.value)
  }

  lemma AsciiTail(s: string)
    requires IsAscii(s) && s != []
    ensures IsAscii(s[1..])
  {
    var tail := s[1..];
    forall c <- tail ensures c < '\U{0080}' {
      var i :| 0 <= i < |tail| && tail[i] == c;
      assert s[i + 1] in s;
    }
  }

  lemma AsciiFront(s: string)
    requires IsAscii(s) && s != []
    ensures IsAscii(s[..|s| - 1])
  {
    var front := s[..|s| - 1];
    forall c <- front ensures c < '\U{0080}' {
      var i :| 0 <= i < |front| && front[i] == c;
      assert s[i] in s;
    }
  }

  lemma {:induction false} SameTrimStart(s: string)
    requires IsAscii(s)
    ensures BackendTrimStart(s) == TrimStart(s)
    decreases |s|
  {
    if s != [] {
      assert s[0] in s;
      AsciiTail(s);
      SameTrimStart(s[1..]);
    }
  }

  lemma {:induction false} SameTrimEnd(s: string)
    requires IsAscii(s)
    ensures BackendTrimEnd(s) == TrimEnd(s)
    decreases |s|
  {
    if s != [] {
      assert s[|s| - 1] in s;
      AsciiFront(s);
      SameTrimEnd(s[..|s| - 1]);
    }
  }

  lemma {:induction false} TrimStartKeeps(s: string)
    requires IsAscii(s)
    ensures IsAscii(TrimStart(s))
    decreases |s|
  {
    if s != [] {
      AsciiTail(s);
      TrimStartKeeps(s[1..]);
    }
  }

  lemma {:induction false} TrimEndKeeps(s: string)
    requires IsAscii(s)
    ensures IsAscii(TrimEnd(s))
    decreases |s|
  {
    if s != [] {
      AsciiFront(s);
      TrimEndKeeps(s[..|s| - 1]);
    }
  }

  lemma LowerHasNoStar(s: string)
    requires '*' !in s
    ensures '*' !in Lower(s)
  {
    forall i | 0 <= i < |s| ensures Lower(s)[i] != '*' {
      assert s[i] in s;
    }
  }

  lemma StripDotsKeeps(s: string)
    requires IsAscii(s)
    ensures IsAscii(StripDots(s))
  {
    if s != [] {
      AsciiTail(s);
      AsciiFront(s);
      if s[1..] != [] {
        AsciiFront(s[1..]);
      }
    }
  }

  /** An ASCII domain is accepted by both sides with the same key, or refused for the same reason. */
  lemma SameDomainVerdict(domain: string, url: string -> Option<string>, idna: string -> Option<string>)
    requires IsAscii(domain)
    ensures NormalizeRouteDomain(domain, idna) ==
            match RouteDomainError(domain, url)
            case Some(reason) => Err(reason)
            case None => Ok(RouteDomainKey(domain, url))
  {
    SameTrimStart(domain);
    TrimStartKeeps(domain);
    SameTrimEnd(TrimStart(domain));
    TrimEndKeeps(TrimStart(domain));
    var d := StripDots(Trim(domain));
    StripDotsKeeps(Trim(domain));
    if '*' !in d {
      LowerHasNoStar(d);
    }
  }

  // ----- the pools

  function NormalizedDomains(
    pool: string, domains: seq<string>, idna: string -> Option<string>): Result<seq<string>, RouteError>
  {
    if domains == [] then Ok([])
    else
      match NormalizedDomains(pool, domains[..|domains| - 1], idna)
      case Err(e) => Err(e)
      case Ok(front) =>
        match NormalizeRouteDomain(domains[|domains| - 1], idna)
        case Err(reason) => Err(BadDomain(pool, domains[|domains| - 1], reason))
        case Ok(key) => Ok(front + [key])
  }

  predicate IsGroupId(id: int): (valid: bool)
    ensures valid <==> 1 <= id <= 0xFFFF_FFFF
  {
    0 < id <= U32_MAX
  }

  function FirstBadGroup(groups: seq<int>): Option<int> {
    if groups == [] then None
    else
      var earlier := FirstBadGroup(groups[..|groups| - 1]);
      if earlier.Some? || IsGroupId(groups[|groups| - 1]) then earlier else Some(groups[|groups| - 1])
  }

  function ValidatePool(table: Table, p: UpstreamPool, idna: string -> Option<string>): Result<Table, RouteError> {
    if p.domains == [] then
      if p.groups != [] then Err(GroupsWithoutDomains(p.name))
      else if p.internal then Err(InternalWithoutDomains(p.name))
      else Ok(table)
    else
      match FirstBadGroup(p.groups)
      case Some(id) => Err(BadGroup(p.name, id))
      case None =>
        match NormalizedDomains(p.name, p.domains, idna)
        case Err(e) => Err(e)
        case Ok(keys) =>
          match ClaimAll(table, p.name, Cross(keys, Scopes(p.groups)))
          case Err(conflict) => Err(ClaimedTwice(conflict))
          case Ok(table') => Ok(table')
  }

  function ValidateAll(pools: seq<UpstreamPool>, idna: string -> Option<string>): Result<Table, RouteError> {
    if pools == [] then Ok(map[])
    else
      match ValidateAll(pools[..|pools| - 1], idna)
      case Err(e) => Err(e)
      case Ok(table) => ValidatePool(table, pools[|pools| - 1], idna)
  }

  predicate EveryConditional(pools: seq<UpstreamPool>) {
    pools == [] || (EveryConditional(pools[..|pools| - 1]) && pools[|pools| - 1].domains != [])
  }

  /** The backend's error for a configuration, none when it is accepted. */
  function ValidatePoolRoutes(pools: seq<UpstreamPool>, idna: string -> Option<string>): Option<RouteError> {
    if pools == [] then None
    else if EveryConditional(pools) then Some(NoDefaultPool)
    else
      match ValidateAll(pools, idna)
      case Err(e) => Some(e)
      case Ok(_) => None
  }

  // ----- agreement

  /** A pool as the form sends it. */
  function Payload(p: Pool): UpstreamPool {
    var routing := PoolRouting(p);
    UpstreamPool(p.name, routing.domains, routing.groups, routing.internal)
  }

  function Payloads(pools: seq<Pool>): (payloads: seq<UpstreamPool>)
    ensures |payloads| == |pools|
  {
    if pools == [] then [] else Payloads(pools[..|pools| - 1]) + [Payload(pools[|pools| - 1])]
  }

  predicate AsciiDomains(domains: seq<string>) {
    domains == [] || (AsciiDomains(domains[..|domains| - 1]) && IsAscii(domains[|domains| - 1]))
  }

  predicate AsciiPools(pools: seq<Pool>) {
    pools == [] || (AsciiPools(pools[..|pools| - 1]) && AsciiDomains(PoolRouting(pools[|pools| - 1]).domains))
  }

  /** Every group a pool is routed for has a positive 32-bit id. */
  ghost predicate RoutedForGroups(pools: seq<Pool>) {
    forall i, id :: 0 <= i < |pools| && id in PoolRouting(pools[i]).groups ==> IsGroupId(id)
  }

  predicate GroupIdsValid(pools: seq<Pool>) {
    pools == [] ||
      (GroupIdsValid(pools[..|pools| - 1]) && FirstBadGroup(PoolRouting(pools[|pools| - 1]).groups).None?)
  }

  lemma {:induction false} FirstBadGroupExactly(groups: seq<int>)
    ensures FirstBadGroup(groups).None? <==> forall id <- groups :: IsGroupId(id)
    decreases |groups|
  {
    if groups != [] {
      FirstBadGroupExactly(groups[..|groups| - 1]);
      assert groups == groups[..|groups| - 1] + [groups[|groups| - 1]];
    }
  }

  lemma {:induction false} ValidGroupId(pools: seq<Pool>, i: nat, id: int)
    requires GroupIdsValid(pools) && i < |pools| && id in PoolRouting(pools[i]).groups
    ensures IsGroupId(id)
    decreases |pools|
  {
    var front := pools[..|pools| - 1];
    if i == |front| {
      FirstBadGroupExactly(PoolRouting(pools[i]).groups);
    } else {
      assert front[i] == pools[i];
      ValidGroupId(front, i, id);
    }
  }

  lemma {:induction false} BadGroupPool(pools: seq<Pool>) returns (i: nat)
    requires !GroupIdsValid(pools)
    ensures i < |pools| && FirstBadGroup(PoolRouting(pools[i]).groups).Some?
    decreases |pools|
  {
    i := |pools| - 1;
    var front := pools[..i];
    if !GroupIdsValid(front) {
      i := BadGroupPool(front);
      assert front[i] == pools[i];
    }
  }

  lemma GroupIdsValidExactly(pools: seq<Pool>)
    ensures GroupIdsValid(pools) <==> RoutedForGroups(pools)
  {
    if GroupIdsValid(pools) {
      forall i, id | 0 <= i < |pools| && id in PoolRouting(pools[i]).groups ensures IsGroupId(id) {
        ValidGroupId(pools, i, id);
      }
    } else {
      var i := BadGroupPool(pools);
      FirstBadGroupExactly(PoolRouting(pools[i]).groups);
    }
  }

  lemma {:induction false} SameDomains(
    pool: string, domains: seq<string>, url: string -> Option<string>, idna: string -> Option<string>)
    requires AsciiDomains(domains)
    ensures NormalizedDomains(pool, domains, idna) ==
            match FirstBadDomain(domains, url)
            case Some((domain, reason)) => Err(BadDomain(pool, domain, reason))
            case None => Ok(Keys(domains, url))
    decreases |domains|
  {
    if domains != [] {
      SameDomains(pool, domains[..|domains| - 1], url, idna);
      SameDomainVerdict(domains[|domains| - 1], url, idna);
    }
  }

  lemma SamePool(table: Table, p: Pool, url: string -> Option<string>, idna: string -> Option<string>)
    requires AsciiDomains(PoolRouting(p).domains)
    ensures FirstBadGroup(PoolRouting(p).groups).None? ==>
              ValidatePool(table, Payload(p), idna) == CheckPool(table, p, url)
    ensures FirstBadGroup(PoolRouting(p).groups).Some? ==> ValidatePool(table, Payload(p), idna).Err?
  {
    var domains := PoolRouting(p).domains;
    if domains == [] {
      assert Cross(Keys(domains, url), Scopes([])) == [];
    } else {
      SameDomains(p.name, domains, url, idna);
    }
  }

  lemma PayloadsFront(pools: seq<Pool>)
    requires pools != []
    ensures Payloads(pools)[..|pools| - 1] == Payloads(pools[..|pools| - 1])
    ensures Payloads(pools)[|pools| - 1] == Payload(pools[|pools| - 1])
  {}

  lemma {:induction false} SamePools(pools: seq<Pool>, url: string -> Option<string>, idna: string -> Option<string>)
    requires AsciiPools(pools) && GroupIdsValid(pools)
    ensures ValidateAll(Payloads(pools), idna) == CheckAll(pools, url)
    decreases |pools|
  {
    if pools != [] {
      var front := pools[..|pools| - 1];
      SamePools(front, url, idna);
      PayloadsFront(pools);
      if CheckAll(front, url).Ok? {
        SamePool(CheckAll(front, url).value, pools[|front|], url, idna);
      }
    }
  }

  lemma FailureStays(pools: seq<Pool>, idna: string -> Option<string>)
    requires pools != [] && ValidateAll(Payloads(pools[..|pools| - 1]), idna).Err?
    ensures ValidateAll(Payloads(pools), idna).Err?
  {
    PayloadsFront(pools);
  }

  lemma LastPoolFails(pools: seq<Pool>, url: string -> Option<string>, idna: string -> Option<string>)
    requires pools != [] && AsciiDomains(PoolRouting(pools[|pools| - 1]).domains)
    requires FirstBadGroup(PoolRouting(pools[|pools| - 1]).groups).Some?
    ensures ValidateAll(Payloads(pools), idna).Err?
  {
    PayloadsFront(pools);
    var front := ValidateAll(Payloads(pools[..|pools| - 1]), idna);
    if front.Ok? {
      SamePool(front.value, pools[|pools| - 1], url, idna);
    }
  }

  lemma {:induction false} BadGroupFails(
    pools: seq<Pool>, url: string -> Option<string>, idna: string -> Option<string>)
    requires AsciiPools(pools) && !GroupIdsValid(pools)
    ensures ValidateAll(Payloads(pools), idna).Err?
    decreases |pools|
  {
    if !GroupIdsValid(pools[..|pools| - 1]) {
      BadGroupFails(pools[..|pools| - 1], url, idna);
      FailureStays(pools, idna);
    } else {
      LastPoolFails(pools, url, idna);
    }
  }

  lemma {:induction false} SameConditional(pools: seq<Pool>)
    ensures EveryConditional(Payloads(pools)) == AllConditional(pools)
    decreases |pools|
  {
    if pools != [] {
      SameConditional(pools[..|pools| - 1]);
      assert Payloads(pools)[..|pools| - 1] == Payloads(pools[..|pools| - 1]);
    }
  }

  /** For ASCII domains and real group ids, form and backend give the same verdict, error included. */
  lemma FormMirrorsBackend(pools: seq<Pool>, url: string -> Option<string>, idna: string -> Option<string>)
    requires AsciiPools(pools) && RoutedForGroups(pools)
    ensures FirstError(pools, url) == ValidatePoolRoutes(Payloads(pools), idna)
  {
    GroupIdsValidExactly(pools);
    SamePools(pools, url, idna);
    SameConditional(pools);
  }

  /** The backend accepts exactly what the form accepts with positive 32-bit group ids. */
  lemma BackendAcceptsExactly(pools: seq<Pool>, url: string -> Option<string>, idna: string -> Option<string>)
    requires AsciiPools(pools)
    ensures ValidatePoolRoutes(Payloads(pools), idna).None?
       <==> && FirstError(pools, url).None?
            && RoutedForGroups(pools)
  {
    GroupIdsValidExactly(pools);
    if GroupIdsValid(pools) {
      SamePools(pools, url, idna);
    } else {
      BadGroupFails(pools, url, idna);
    }
    SameConditional(pools);
  }

  // ----- configurations the form would not send

  lemma {:induction false} RefusedPoolIsRefused(pools: seq<UpstreamPool>, idna: string -> Option<string>, i: nat)
    requires i < |pools| && forall table :: ValidatePool(table, pools[i], idna).Err?
    ensures ValidateAll(pools, idna).Err?
    decreases |pools|
  {
    if i < |pools| - 1 {
      RefusedPoolIsRefused(pools[..|pools| - 1], idna, i);
    }
  }

  lemma {:induction false} IdlePoolIsDefault(pools: seq<UpstreamPool>, i: nat)
    requires i < |pools| && pools[i].domains == []
    ensures !EveryConditional(pools)
    decreases |pools|
  {
    if i < |pools| - 1 {
      IdlePoolIsDefault(pools[..|pools| - 1], i);
    }
  }

  lemma {:induction false} PlainPoolsPass(pools: seq<UpstreamPool>, idna: string -> Option<string>)
    requires forall j :: 0 <= j < |pools| ==> pools[j] == UpstreamPool(pools[j].name, [], [], false)
    ensures ValidateAll(pools, idna) == Ok(map[])
    decreases |pools|
  {
    if pools != [] {
      PlainPoolsPass(pools[..|pools| - 1], idna);
    }
  }

  /** Behind pools without routing, the first pool that is refused gives the error. */
  lemma {:induction false} FirstRefusal(
    pools: seq<UpstreamPool>, idna: string -> Option<string>, i: nat, error: RouteError)
    requires i < |pools| && ValidatePool(map[], pools[i], idna) == Err(error)
    requires forall j :: 0 <= j < i ==> pools[j] == UpstreamPool(pools[j].name, [], [], false)
    ensures ValidateAll(pools, idna) == Err(error)
    decreases |pools|
  {
    if i < |pools| - 1 {
      FirstRefusal(pools[..|pools| - 1], idna, i, error);
    } else {
      PlainPoolsPass(pools[..i], idna);
    }
  }

  /** The first of these that is no group's id. */
  ghost predicate FirstOdd(groups: seq<int>, i: nat) {
    && i < |groups| && !(1 <= groups[i] <= 0xFFFF_FFFF)
    && forall j :: 0 <= j < i ==> 1 <= groups[j] <= 0xFFFF_FFFF
  }

  lemma {:induction false} FirstOddIsBad(groups: seq<int>, i: nat)
    requires FirstOdd(groups, i)
    ensures FirstBadGroup(groups) == Some(groups[i])
    decreases |groups|
  {
    var front := groups[..|groups| - 1];
    if i < |front| {
      FirstOddIsBad(front, i);
    } else {
      FirstBadGroupExactly(front);
    }
  }

  /** A pool whose groups hold something else than a positive 32-bit number is refused, and
      the error names the first. */
  lemma OddGroupIsRefused(pools: seq<UpstreamPool>, idna: string -> Option<string>, i: nat, n: nat)
    requires i < |pools| && pools[i].domains != [] && FirstOdd(pools[i].groups, n)
    requires exists j :: 0 <= j < |pools| && pools[j].domains == []
    ensures ValidatePoolRoutes(pools, idna).Some?
    ensures (forall j :: 0 <= j < i ==> pools[j] == UpstreamPool(pools[j].name, [], [], false)) ==>
              ValidatePoolRoutes(pools, idna) == Some(BadGroup(pools[i].name, pools[i].groups[n]))
  {
    var plain: nat :| plain < |pools| && pools[plain].domains == [];
    IdlePoolIsDefault(pools, plain);
    FirstOddIsBad(pools[i].groups, n);
    RefusedPoolIsRefused(pools, idna, i);
    if forall j :: 0 <= j < i ==> pools[j] == UpstreamPool(pools[j].name, [], [], false) {
      FirstRefusal(pools, idna, i, BadGroup(pools[i].name, pools[i].groups[n]));
    }
  }

  /** A pool may name groups or be internal only if it has domains. */
  lemma RoutingNeedsDomains(pools: seq<UpstreamPool>, idna: string -> Option<string>, i: nat)
    requires i < |pools| && pools[i].domains == [] && (pools[i].groups != [] || pools[i].internal)
    ensures ValidatePoolRoutes(pools, idna).Some?
    ensures var refusal := if pools[i].groups != [] then GroupsWithoutDomains(pools[i].name)
                           else InternalWithoutDomains(pools[i].name);
            (forall j :: 0 <= j < i ==> pools[j] == UpstreamPool(pools[j].name, [], [], false)) ==>
              ValidatePoolRoutes(pools, idna) == Some(refusal)
  {
    assert !EveryConditional(pools) by { IdlePoolIsDefault(pools, i); }
    if forall j :: 0 <= j < i ==> pools[j] == UpstreamPool(pools[j].name, [], [], false) {
      FirstRefusal(pools, idna, i, if pools[i].groups != [] then GroupsWithoutDomains(pools[i].name)
                                   else InternalWithoutDomains(pools[i].name));
    }
    RefusedPoolIsRefused(pools, idna, i);
  }
}
