/** Which domains the pools of the settings form are routed for, checked before saving,
    and the backend's check of the same pools. */
module Routing {
  import opened Ascii
  import opened Claims
  import opened Options
  import opened PoolCleaning

  const MAX_NAME_LEN := 253
  const MAX_LABEL_LEN := 63

  datatype Reason =
    | Wildcard | WildcardInName | NotADomain | EmptyDomain | TooLong | EmptyLabel | LabelTooLong | BadCharacters

  datatype RouteError =
    | NoDefaultPool
    | BadDomain(pool: string, domain: string, reason: Reason)
    | ClaimedTwice(conflict: Conflict)
    | GroupsWithoutDomains(pool: string)
    | InternalWithoutDomains(pool: string)
    | BadGroup(pool: string, id: int)

  // ----- one domain

  predicate IsAscii(s: string) {
    forall c <- s :: c < '\U{0080}'
  }

  function StripDots(d: string): string {
    var d := if d != [] && d[0] == '.' then d[1..] else d;
    if d != [] && d[|d| - 1] == '.' then d[..|d| - 1] else d
  }

  /** The labels between the dots. */
  function Split(s: string): (labels: seq<string>)
    ensures labels != []
  {
    if s == [] then [[]]
    else
      var front, c := Split(s[..|s| - 1]), s[|s| - 1];
      if c == '.' then front + [[]] else front[..|front| - 1] + [front[|front| - 1] + [c]]
  }

  predicate IsLabelChar(c: char) {
    'a' <= c <= 'z' || 'A' <= c <= 'Z' || '0' <= c <= '9' || c == '_' || c == '-'
  }

  function LabelError(text: string): Option<Reason> {
    if text == [] then Some(EmptyLabel)
    else if |text| > MAX_LABEL_LEN then Some(LabelTooLong)
    else if exists c :: c in text && !IsLabelChar(c) then Some(BadCharacters)
    else None
  }

  function FirstLabelError(labels: seq<string>): Option<Reason> {
    if labels == [] then None
    else
      var earlier := FirstLabelError(labels[..|labels| - 1]);
      if earlier.Some? then earlier else LabelError(labels[|labels| - 1])
  }

  /** `url` gives the ASCII host name of a domain that is not ASCII. */
  function RouteDomainError(domain: string, url: string -> Option<string>): Option<Reason> {
    var d := StripDots(Trim(domain));
    if '*' in d then Some(Wildcard)
    else
      var host := if IsAscii(d) then Some(d) else url(d);
      if host.None? then Some(NotADomain)
      else
        var d := Lower(host.value);
        if d == [] then Some(EmptyDomain)
        else if |d| > MAX_NAME_LEN then Some(TooLong)
        else FirstLabelError(Split(d))
  }

  /** The domain as the resolver matches it. */
  function RouteDomainKey(domain: string, url: string -> Option<string>): string {
    var d := StripDots(Trim(domain));
    Lower(if IsAscii(d) then d else url(d).GetOr(d))
  }

  lemma {:induction false} CharOfALabel(s: string, c: char) returns (i: nat)
    requires c in s && c != '.'
    ensures i < |Split(s)| && c in Split(s)[i]
    decreases |s|
  {
    var front, last := s[..|s| - 1], s[|s| - 1];
    if c == last {
      i := |Split(front)| - 1;
    } else {
      assert s == front + [last];
      i := CharOfALabel(front, c);
    }
  }

  lemma {:induction false} NoErrorInAnyLabel(labels: seq<string>, i: nat)
    requires FirstLabelError(labels).None? && i < |labels|
    ensures LabelError(labels[i]).None?
    decreases |labels|
  {
    if i < |labels| - 1 {
      NoErrorInAnyLabel(labels[..|labels| - 1], i);
    }
  }

  /** An accepted domain is matched by a key without NUL, the separator of claim keys. */
  lemma AcceptedHasNoNul(domain: string, url: string -> Option<string>)
    requires RouteDomainError(domain, url).None?
    ensures '\0' !in RouteDomainKey(domain, url)
  {
    var d := RouteDomainKey(domain, url);
    assert !IsLabelChar('\0');
    if '\0' in d {
      var i := CharOfALabel(d, '\0');
      NoErrorInAnyLabel(Split(d), i);
    }
  }

  // ----- one pool

  function Scopes(groups: seq<int>): (scopes: seq<Option<int>>) {
    if groups == [] then [None] else SomeEach(groups)
  }

  function SomeEach(groups: seq<int>): seq<Option<int>> {
    if groups == [] then [] else SomeEach(groups[..|groups| - 1]) + [Some(groups[|groups| - 1])]
  }

  function Keys(domains: seq<string>, url: string -> Option<string>): (keys: seq<string>)
    ensures |keys| == |domains|
  {
    if domains == [] then [] else Keys(domains[..|domains| - 1], url) + [RouteDomainKey(domains[|domains| - 1], url)]
  }

  function FirstBadDomain(domains: seq<string>, url: string -> Option<string>): Option<(string, Reason)> {
    if domains == [] then None
    else
      var earlier, d := FirstBadDomain(domains[..|domains| - 1], url), domains[|domains| - 1];
      if earlier.Some? then earlier
      else match RouteDomainError(d, url)
        case Some(reason) => Some((d, reason))
        case None => None
  }

  function IsConditional(p: Pool): bool {
    PoolRouting(p).domains != []
  }

  function ClaimsOf(p: Pool, url: string -> Option<string>): seq<Claim> {
    Cross(Keys(PoolRouting(p).domains, url), Scopes(PoolRouting(p).groups))
  }

  function CheckPool(table: Table, p: Pool, url: string -> Option<string>): Result<Table, RouteError> {
    match FirstBadDomain(PoolRouting(p).domains, url)
    case Some((domain, reason)) => Err(BadDomain(p.name, domain, reason))
    case None =>
      match ClaimAll(table, p.name, ClaimsOf(p, url))
      case Err(conflict) => Err(ClaimedTwice(conflict))
      case Ok(table') => Ok(table')
  }

  function CheckAll(pools: seq<Pool>, url: string -> Option<string>): Result<Table, RouteError> {
    if pools == [] then Ok(map[])
    else
      match CheckAll(pools[..|pools| - 1], url)
      case Err(e) => Err(e)
      case Ok(table) => CheckPool(table, pools[|pools| - 1], url)
  }

  predicate AllConditional(pools: seq<Pool>) {
    pools == [] || (AllConditional(pools[..|pools| - 1]) && IsConditional(pools[|pools| - 1]))
  }

  /** The first error the form shows, none when the pools may be saved. */
  function FirstError(pools: seq<Pool>, url: string -> Option<string>): Option<RouteError> {
    if pools != [] && AllConditional(pools) then Some(NoDefaultPool)
    else
      match CheckAll(pools, url)
      case Err(e) => Some(e)
      case Ok(_) => None
  }

  // ----- the specification: no two pools claim the same

  ghost predicate DomainsValid(p: Pool, url: string -> Option<string>) {
    forall d <- PoolRouting(p).domains :: RouteDomainError(d, url).None?
  }

  ghost predicate Agree(p: Pool, q: Pool, url: string -> Option<string>) {
    p.name == q.name || forall c :: !(c in ClaimsOf(p, url) && c in ClaimsOf(q, url))
  }

  ghost predicate AllValid(pools: seq<Pool>, url: string -> Option<string>) {
    forall i :: 0 <= i < |pools| ==> DomainsValid(pools[i], url)
  }

  ghost predicate AllAgree(pools: seq<Pool>, url: string -> Option<string>) {
    forall i, j :: 0 <= i < |pools| && 0 <= j < |pools| ==> Agree(pools[i], pools[j], url)
  }

  ghost predicate Accepts(pools: seq<Pool>, url: string -> Option<string>) {
    && (pools == [] || exists i :: 0 <= i < |pools| && !IsConditional(pools[i]))
    && AllValid(pools, url)
    && AllAgree(pools, url)
  }

  /** A pool claims exactly its domains' keys, for each of its groups or for everyone. */
  lemma ClaimsExactly(p: Pool, url: string -> Option<string>, c: Claim)
    ensures c in ClaimsOf(p, url)
       <==> && (exists d <- PoolRouting(p).domains :: RouteDomainKey(d, url) == c.domain)
            && match c.scope {
                 case None => PoolRouting(p).groups == []
                 case Some(id) => id in PoolRouting(p).groups
               }
  {
    var routing := PoolRouting(p);
    CrossHas(Keys(routing.domains, url), Scopes(routing.groups), c);
    KeysHave(routing.domains, url, c.domain);
    SomeEachHas(routing.groups, c.scope);
  }

  lemma {:induction false} KeyAt(domains: seq<string>, url: string -> Option<string>, i: nat)
    requires i < |domains|
    ensures Keys(domains, url)[i] == RouteDomainKey(domains[i], url)
    decreases |domains|
  {
    if i < |domains| - 1 {
      var front := domains[..|domains| - 1];
      KeyAt(front, url, i);
      assert front[i] == domains[i];
    }
  }

  lemma KeysHave(domains: seq<string>, url: string -> Option<string>, key: string)
    ensures key in Keys(domains, url) <==> exists d <- domains :: RouteDomainKey(d, url) == key
  {
    forall i: nat | i < |domains| ensures Keys(domains, url)[i] == RouteDomainKey(domains[i], url) {
      KeyAt(domains, url, i);
    }
    if key in Keys(domains, url) {
      var i :| 0 <= i < |domains| && Keys(domains, url)[i] == key;
      assert domains[i] in domains;
    }
  }

  lemma {:induction false} SomeEachHas(groups: seq<int>, scope: Option<int>)
    ensures scope in SomeEach(groups) <==> scope.Some? && scope.value in groups
    decreases |groups|
  {
    if groups != [] {
      var front, last := groups[..|groups| - 1], groups[|groups| - 1];
      SomeEachHas(front, scope);
      assert groups == front + [last];
    }
  }

  lemma ValidStep(domains: seq<string>, url: string -> Option<string>)
    requires domains != []
    ensures (forall d <- domains :: RouteDomainError(d, url).None?) <==>
            && (forall d <- domains[..|domains| - 1] :: RouteDomainError(d, url).None?)
            && RouteDomainError(domains[|domains| - 1], url).None?
  {
    var front, last := domains[..|domains| - 1], domains[|domains| - 1];
    assert domains == front + [last];
    assert forall d :: d in domains <==> d in front || d == last;
  }

  lemma {:induction false} BadDomainExactly(domains: seq<string>, url: string -> Option<string>)
    ensures FirstBadDomain(domains, url).None? <==> forall d <- domains :: RouteDomainError(d, url).None?
    decreases |domains|
  {
    if domains != [] {
      BadDomainExactly(domains[..|domains| - 1], url);
      ValidStep(domains, url);
    }
  }

  ghost predicate Claimed(pools: seq<Pool>, url: string -> Option<string>, c: Claim) {
    pools != [] && (c in ClaimsOf(pools[|pools| - 1], url) || Claimed(pools[..|pools| - 1], url, c))
  }

  /** Every pool that makes the claim has this name. */
  ghost predicate OwnedBy(pools: seq<Pool>, url: string -> Option<string>, c: Claim, name: string) {
    pools == [] ||
      (&& (c in ClaimsOf(pools[|pools| - 1], url) ==> pools[|pools| - 1].name == name)
       && OwnedBy(pools[..|pools| - 1], url, c, name))
  }

  lemma {:induction false} ClaimedAt(pools: seq<Pool>, url: string -> Option<string>, c: Claim, i: nat)
    requires i < |pools| && c in ClaimsOf(pools[i], url)
    ensures Claimed(pools, url, c)
    decreases |pools|
  {
    if i < |pools| - 1 {
      ClaimedAt(pools[..|pools| - 1], url, c, i);
    }
  }

  lemma {:induction false} Claimant(pools: seq<Pool>, url: string -> Option<string>, c: Claim) returns (i: nat)
    requires Claimed(pools, url, c)
    ensures i < |pools| && c in ClaimsOf(pools[i], url)
    decreases |pools|
  {
    if c in ClaimsOf(pools[|pools| - 1], url) {
      i := |pools| - 1;
    } else {
      i := Claimant(pools[..|pools| - 1], url, c);
      SamePoolAt(pools, i);
    }
  }

  lemma SamePoolAt(pools: seq<Pool>, i: nat)
    requires i < |pools| - 1
    ensures pools[..|pools| - 1][i] == pools[i]
  {
  }

  lemma {:induction false} OwnerOfClaim(pools: seq<Pool>, url: string -> Option<string>, c: Claim, name: string, i: nat)
    requires OwnedBy(pools, url, c, name) && i < |pools| && c in ClaimsOf(pools[i], url)
    ensures pools[i].name == name
    decreases |pools|
  {
    if i < |pools| - 1 {
      SamePoolAt(pools, i);
      OwnerOfClaim(pools[..|pools| - 1], url, c, name, i);
    }
  }

  lemma {:induction false} UnclaimedHasAnyOwner(pools: seq<Pool>, url: string -> Option<string>, c: Claim, name: string)
    requires !Claimed(pools, url, c)
    ensures OwnedBy(pools, url, c, name)
    decreases |pools|
  {
    if pools != [] {
      UnclaimedHasAnyOwner(pools[..|pools| - 1], url, c, name);
    }
  }

  lemma TableOfOneMore(table: Table, p: Pool, url: string -> Option<string>, c: Claim)
    requires CheckPool(table, p, url).Ok?
    ensures var table' := CheckPool(table, p, url).value;
            if c in ClaimsOf(p, url) then c in table' && table'[c] == p.name && (c in table ==> table[c] == p.name)
            else (c in table' <==> c in table) && (c in table ==> table'[c] == table[c])
  {
    ClaimAllExactly(table, p.name, ClaimsOf(p, url), c);
  }

  /** The table after a run of pools: each claim made, and the one name that made it. */
  lemma {:induction false} TableExactly(pools: seq<Pool>, url: string -> Option<string>, c: Claim)
    requires CheckAll(pools, url).Ok?
    ensures var table := CheckAll(pools, url).value;
            && (c in table <==> Claimed(pools, url, c))
            && (c in table ==> OwnedBy(pools, url, c, table[c]))
    decreases |pools|
  {
    if pools != [] {
      var front, last := pools[..|pools| - 1], pools[|pools| - 1];
      TableExactly(front, url, c);
      TableOfOneMore(CheckAll(front, url).value, last, url, c);
      if !Claimed(front, url, c) {
        UnclaimedHasAnyOwner(front, url, c, last.name);
      }
    }
  }

  lemma {:induction false} PassingIsValid(pools: seq<Pool>, url: string -> Option<string>, i: nat)
    requires CheckAll(pools, url).Ok? && i < |pools|
    ensures DomainsValid(pools[i], url)
    decreases |pools|
  {
    if i < |pools| - 1 {
      PassingIsValid(pools[..|pools| - 1], url, i);
    } else {
      BadDomainExactly(PoolRouting(pools[i]).domains, url);
    }
  }

  lemma PassingAgrees(pools: seq<Pool>, url: string -> Option<string>, i: nat, j: nat, c: Claim)
    requires CheckAll(pools, url).Ok? && i < |pools| && j < |pools|
    requires c in ClaimsOf(pools[i], url) && c in ClaimsOf(pools[j], url)
    ensures pools[i].name == pools[j].name
  {
    TableExactly(pools, url, c);
    ClaimedAt(pools, url, c, i);
    OwnerOfClaim(pools, url, c, CheckAll(pools, url).value[c], i);
    OwnerOfClaim(pools, url, c, CheckAll(pools, url).value[c], j);
  }

  /** Passing the check means every domain is valid and no two names claim the same. */
  lemma Passing(pools: seq<Pool>, url: string -> Option<string>)
    requires CheckAll(pools, url).Ok?
    ensures AllValid(pools, url) && AllAgree(pools, url)
  {
    forall i | 0 <= i < |pools| ensures DomainsValid(pools[i], url) {
      PassingIsValid(pools, url, i);
    }
    forall i, j | 0 <= i < |pools| && 0 <= j < |pools| ensures Agree(pools[i], pools[j], url) {
      forall c | c in ClaimsOf(pools[i], url) && c in ClaimsOf(pools[j], url) ensures pools[i].name == pools[j].name {
        PassingAgrees(pools, url, i, j, c);
      }
    }
  }

  /** A conflict is between the last pool and an earlier one. */
  lemma ConflictDisagrees(pools: seq<Pool>, last: Pool, url: string -> Option<string>) returns (i: nat)
    requires CheckAll(pools, url).Ok? && ClaimAll(CheckAll(pools, url).value, last.name, ClaimsOf(last, url)).Err?
    ensures i < |pools| && !Agree(pools[i], last, url)
  {
    var table := CheckAll(pools, url).value;
    ConflictIsReal(table, last.name, ClaimsOf(last, url));
    var c := ClaimAll(table, last.name, ClaimsOf(last, url)).error.claim;
    TableExactly(pools, url, c);
    i := Claimant(pools, url, c);
    OwnerOfClaim(pools, url, c, table[c], i);
  }

  /** The one pass stops only at a pool that is invalid or disagrees with an earlier one. */
  lemma {:induction false} Failing(pools: seq<Pool>, url: string -> Option<string>)
    requires CheckAll(pools, url).Err?
    ensures !AllValid(pools, url) || !AllAgree(pools, url)
    decreases |pools|
  {
    var n := |pools| - 1;
    var front, last := pools[..n], pools[n];
    if CheckAll(front, url).Err? {
      Failing(front, url);
      assert forall i :: 0 <= i < n ==> front[i] == pools[i];
    } else {
      BadDomainExactly(PoolRouting(last).domains, url);
      if DomainsValid(last, url) {
        var i := ConflictDisagrees(front, last, url);
        assert !Agree(pools[i], pools[n], url);
      } else {
        assert !DomainsValid(pools[n], url);
      }
    }
  }

  lemma {:induction false} ConditionalAt(pools: seq<Pool>, i: nat)
    requires AllConditional(pools) && i < |pools|
    ensures IsConditional(pools[i])
    decreases |pools|
  {
    if i < |pools| - 1 {
      ConditionalAt(pools[..|pools| - 1], i);
    }
  }

  lemma {:induction false} DefaultPool(pools: seq<Pool>) returns (i: nat)
    requires !AllConditional(pools)
    ensures i < |pools| && !IsConditional(pools[i])
    decreases |pools|
  {
    var front := pools[..|pools| - 1];
    if AllConditional(front) {
      i := |front|;
    } else {
      i := DefaultPool(front);
      assert front[i] == pools[i];
    }
  }

  /** The form's one pass decides the quadratic specification. */
  lemma FirstErrorDecides(pools: seq<Pool>, url: string -> Option<string>)
    ensures FirstError(pools, url).None? <==> Accepts(pools, url)
  {
    if AllConditional(pools) {
      forall i: nat | i < |pools| ensures IsConditional(pools[i]) {
        ConditionalAt(pools, i);
      }
    } else {
      var i := DefaultPool(pools);
    }
    if CheckAll(pools, url).Ok? {
      Passing(pools, url);
    } else {
      Failing(pools, url);
    }
  }

  // ----- what an error says

  /** `e` names a fault of pool `j`, and the pools before it have none. */
  ghost predicate Explains(pools: seq<Pool>, url: string -> Option<string>, e: RouteError, j: nat)
    requires j < |pools|
  {
    && AllValid(pools[..j], url) && AllAgree(pools[..j], url)
    && match e {
         case BadDomain(pool, domain, reason) =>
           && pool == pools[j].name
           && exists i :: FirstFault(PoolRouting(pools[j]).domains, url, i, domain, reason)
         case ClaimedTwice(Conflict(claim, owner, pool)) =>
           && pool == pools[j].name != owner && DomainsValid(pools[j], url) && claim in ClaimsOf(pools[j], url)
           && exists i :: 0 <= i < j && pools[i].name == owner && claim in ClaimsOf(pools[i], url)
         case _ => false
       }
  }

  /** The first of these domains that is refused. */
  ghost predicate FirstFault(
    domains: seq<string>, url: string -> Option<string>, i: nat, domain: string, reason: Reason)
  {
    && i < |domains| && domains[i] == domain && RouteDomainError(domain, url) == Some(reason)
    && forall k :: 0 <= k < i ==> RouteDomainError(domains[k], url).None?
  }

  lemma FaultOfFront(
    domains: seq<string>, url: string -> Option<string>, i: nat, domain: string, reason: Reason)
    requires domains != [] && FirstFault(domains[..|domains| - 1], url, i, domain, reason)
    ensures FirstFault(domains, url, i, domain, reason)
  {
    var front := domains[..|domains| - 1];
    assert forall k :: 0 <= k <= i ==> front[k] == domains[k];
  }

  lemma FaultOfLast(domains: seq<string>, url: string -> Option<string>, reason: Reason)
    requires domains != [] && FirstBadDomain(domains[..|domains| - 1], url).None?
    requires RouteDomainError(domains[|domains| - 1], url) == Some(reason)
    ensures FirstFault(domains, url, |domains| - 1, domains[|domains| - 1], reason)
  {
    var front := domains[..|domains| - 1];
    BadDomainExactly(front, url);
    forall k | 0 <= k < |front| ensures RouteDomainError(domains[k], url).None? {
      assert domains[k] == front[k] && front[k] in front;
    }
  }

  lemma {:induction false} BadDomainIsFirst(domains: seq<string>, url: string -> Option<string>) returns (i: nat)
    requires FirstBadDomain(domains, url).Some?
    ensures var (domain, reason) := FirstBadDomain(domains, url).value; FirstFault(domains, url, i, domain, reason)
    decreases |domains|
  {
    var (domain, reason) := FirstBadDomain(domains, url).value;
    if FirstBadDomain(domains[..|domains| - 1], url).Some? {
      i := BadDomainIsFirst(domains[..|domains| - 1], url);
      FaultOfFront(domains, url, i, domain, reason);
    } else {
      i := |domains| - 1;
      FaultOfLast(domains, url, reason);
    }
  }

  /** The pool that stops the pass, with the pools before it. */
  lemma {:induction false} StoppedAt(pools: seq<Pool>, url: string -> Option<string>) returns (j: nat)
    requires CheckAll(pools, url).Err?
    ensures j < |pools| && CheckAll(pools[..j], url).Ok?
    ensures CheckAll(pools, url) == CheckPool(CheckAll(pools[..j], url).value, pools[j], url)
    decreases |pools|
  {
    var front := pools[..|pools| - 1];
    if CheckAll(front, url).Ok? {
      j := |front|;
    } else {
      j := StoppedAt(front, url);
      assert front[..j] == pools[..j] && front[j] == pools[j];
    }
  }

  lemma ConflictIsExplained(pools: seq<Pool>, url: string -> Option<string>, j: nat)
    requires j < |pools| && CheckAll(pools[..j], url).Ok? && DomainsValid(pools[j], url)
    requires ClaimAll(CheckAll(pools[..j], url).value, pools[j].name, ClaimsOf(pools[j], url)).Err?
    ensures var table := CheckAll(pools[..j], url).value;
            var conflict := ClaimAll(table, pools[j].name, ClaimsOf(pools[j], url)).error;
            Explains(pools, url, ClaimedTwice(conflict), j)
  {
    var table := CheckAll(pools[..j], url).value;
    var conflict := ClaimAll(table, pools[j].name, ClaimsOf(pools[j], url)).error;
    Passing(pools[..j], url);
    ConflictIsReal(table, pools[j].name, ClaimsOf(pools[j], url));
    TableExactly(pools[..j], url, conflict.claim);
    var i := Claimant(pools[..j], url, conflict.claim);
    OwnerOfClaim(pools[..j], url, conflict.claim, conflict.owner, i);
    assert pools[..j][i] == pools[i];
  }

  /** The error is that no pool is left for other names, or a fault of the first pool that
      is invalid or disagrees with one before it. */
  lemma FirstErrorIsReal(pools: seq<Pool>, url: string -> Option<string>)
    requires FirstError(pools, url).Some?
    ensures var e := FirstError(pools, url).value;
            if pools != [] && (forall i :: 0 <= i < |pools| ==> PoolRouting(pools[i]).domains != [])
            then e == NoDefaultPool
            else exists j :: 0 <= j < |pools| && Explains(pools, url, e, j)
  {
    if AllConditional(pools) {
      forall i: nat | i < |pools| ensures IsConditional(pools[i]) {
        ConditionalAt(pools, i);
      }
    } else {
      var i := DefaultPool(pools);
      assert PoolRouting(pools[i]).domains == [];
      var j := StoppedAt(pools, url);
      Passing(pools[..j], url);
      var domains := PoolRouting(pools[j]).domains;
      BadDomainExactly(domains, url);
      if FirstBadDomain(domains, url).Some? {
        var n := BadDomainIsFirst(domains, url);
      } else {
        ConflictIsExplained(pools, url, j);
      }
      assert Explains(pools, url, FirstError(pools, url).value, j);
    }
  }
}
