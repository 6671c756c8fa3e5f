/** The form's routing check as it runs: nested loops over one map keyed by text. */
module RoutingForm {
  import opened Claims
  import opened Options
  import opened PoolCleaning
  import opened Routing

  /** The text-keyed map holds exactly the table's entries. */
  ghost predicate Represents(claimed: map<string, string>, table: Table) {
    forall c: Claim :: '\0' !in c.domain ==>
      (Key(c) in claimed <==> c in table) && (c in table ==> claimed[Key(c)] == table[c])
  }

  lemma ClaimRepresented(claimed: map<string, string>, table: Table, c: Claim, name: string)
    requires Represents(claimed, table) && '\0' !in c.domain
    ensures Represents(claimed[Key(c) := name], table[c := name])
  {
    forall c': Claim | '\0' !in c'.domain
      ensures (Key(c') in claimed[Key(c) := name] <==> c' in table[c := name])
           && (c' in table[c := name] ==> claimed[Key(c) := name][Key(c')] == table[c := name][c']) {
      KeyInjective(c, c');
    }
  }

  method DomainErrorOf(name: string, domains: seq<string>, url: string -> Option<string>)
    returns (r: Option<RouteError>)
    ensures r == match FirstBadDomain(domains, url)
                 case Some((domain, reason)) => Some(BadDomain(name, domain, reason))
                 case None => None
  {
    for i := 0 to |domains|
      invariant FirstBadDomain(domains[..i], url).None?
    {
      assert domains[..i + 1][..i] == domains[..i];
      var reason := RouteDomainError(domains[i], url);
      if reason.Some? {
        FirstBadStays(domains, i + 1, url);
        return Some(BadDomain(name, domains[i], reason.value));
      }
    }
    assert domains[..|domains|] == domains;
    r := None;
  }

  lemma {:induction false} FirstBadStays(domains: seq<string>, n: nat, url: string -> Option<string>)
    requires n <= |domains| && FirstBadDomain(domains[..n], url).Some?
    ensures FirstBadDomain(domains, url) == FirstBadDomain(domains[..n], url)
    decreases |domains| - n
  {
    if n == |domains| {
      assert domains[..n] == domains;
    } else {
      assert domains[..n + 1][..n] == domains[..n];
      FirstBadStays(domains, n + 1, url);
    }
  }

  lemma ErrorStays(table: Table, name: string, first: seq<Claim>, all: seq<Claim>)
    requires first <= all && ClaimAll(table, name, first).Err?
    ensures ClaimAll(table, name, all) == ClaimAll(table, name, first)
  {
    ClaimInTwoParts(table, name, first, all[|first|..]);
    assert all == first + all[|first|..];
  }

  lemma {:induction false} RowPrefix(domain: string, scopes: seq<Option<int>>, n: nat)
    requires n <= |scopes|
    ensures Row(domain, scopes[..n]) <= Row(domain, scopes)
    decreases |scopes| - n
  {
    if n == |scopes| {
      assert scopes[..n] == scopes;
    } else {
      RowPrefix(domain, scopes, n + 1);
      assert scopes[..n + 1][..n] == scopes[..n];
    }
  }

  /** The next scope: it either extends the claims so far or decides the whole row. */
  lemma RowStep(table: Table, name: string, domain: string, scopes: seq<Option<int>>, j: nat)
    requires j < |scopes| && ClaimAll(table, name, Row(domain, scopes[..j])).Ok?
    ensures var t, claim := ClaimAll(table, name, Row(domain, scopes[..j])).value, Claim(domain, scopes[j]);
            if claim in t && t[claim] != name
            then ClaimAll(table, name, Row(domain, scopes)) == Err(Conflict(claim, t[claim], name))
            else ClaimAll(table, name, Row(domain, scopes[..j + 1])) == Ok(t[claim := name])
  {
    var before, claim := Row(domain, scopes[..j]), Claim(domain, scopes[j]);
    assert scopes[..j + 1][..j] == scopes[..j];
    assert (before + [claim])[..j] == before;
    assert Row(domain, scopes[..j + 1]) == before + [claim];
    RowPrefix(domain, scopes, j + 1);
    if ClaimAll(table, name, before + [claim]).Err? {
      ErrorStays(table, name, before + [claim], Row(domain, scopes));
    }
  }

  /** One domain claimed for every scope. */
  method ClaimDomain(
    claimed: map<string, string>, name: string, domain: string, scopes: seq<Option<int>>, ghost table: Table)
    returns (r: Option<Conflict>, claimed': map<string, string>, ghost table': Table)
    requires '\0' !in domain && Represents(claimed, table)
    ensures ClaimAll(table, name, Row(domain, scopes)) == if r.Some? then Err(r.value) else Ok(table')
    ensures r.None? ==> Represents(claimed', table')
  {
    claimed', table' := claimed, table;
    for j := 0 to |scopes|
      invariant ClaimAll(table, name, Row(domain, scopes[..j])) == Ok(table')
      invariant Represents(claimed', table')
    {
      var claim := Claim(domain, scopes[j]);
      RowStep(table, name, domain, scopes, j);
      var key := Key(claim);
      if key in claimed' && claimed'[key] != name {
        return Some(Conflict(claim, claimed'[key], name)), claimed', table';
      }
      ClaimRepresented(claimed', table', claim, name);
      claimed' := claimed'[key := name];
      table' := table'[claim := name];
    }
    assert scopes[..|scopes|] == scopes;
    r := None;
  }

  lemma {:induction false} CrossPrefix(domains: seq<string>, scopes: seq<Option<int>>, n: nat)
    requires n <= |domains|
    ensures Cross(domains[..n], scopes) <= Cross(domains, scopes)
    decreases |domains| - n
  {
    if n == |domains| {
      assert domains[..n] == domains;
    } else {
      CrossPrefix(domains, scopes, n + 1);
      assert domains[..n + 1][..n] == domains[..n];
    }
  }

  /** The next domain: it either extends the claims so far or decides the whole pool. */
  lemma CrossStep(table: Table, name: string, domains: seq<string>, scopes: seq<Option<int>>, i: nat)
    requires i < |domains| && ClaimAll(table, name, Cross(domains[..i], scopes)).Ok?
    ensures var before := ClaimAll(table, name, Cross(domains[..i], scopes)).value;
            var row := ClaimAll(before, name, Row(domains[i], scopes));
            ClaimAll(table, name, if row.Ok? then Cross(domains[..i + 1], scopes) else Cross(domains, scopes)) == row
  {
    var before, row := Cross(domains[..i], scopes), Row(domains[i], scopes);
    assert domains[..i + 1][..i] == domains[..i];
    ClaimInTwoParts(table, name, before, row);
    CrossPrefix(domains, scopes, i + 1);
    if ClaimAll(table, name, before + row).Err? {
      ErrorStays(table, name, before + row, Cross(domains, scopes));
    }
  }

  /** One pool's distinct domains, each claimed for every scope. */
  method ClaimPool(
    claimed: map<string, string>, name: string, domains: seq<string>, scopes: seq<Option<int>>, ghost table: Table)
    returns (r: Option<Conflict>, claimed': map<string, string>, ghost table': Table)
    requires (forall d <- domains :: '\0' !in d) && Represents(claimed, table)
    ensures ClaimAll(table, name, Cross(domains, scopes)) == if r.Some? then Err(r.value) else Ok(table')
    ensures r.None? ==> Represents(claimed', table')
  {
    claimed', table' := claimed, table;
    for i := 0 to |domains|
      invariant ClaimAll(table, name, Cross(domains[..i], scopes)) == Ok(table')
      invariant Represents(claimed', table')
    {
      CrossStep(table, name, domains, scopes, i);
      r, claimed', table' := ClaimDomain(claimed', name, domains[i], scopes, table');
      if r.Some? {
        return;
      }
    }
    assert domains[..|domains|] == domains;
    r := None;
  }

  lemma {:induction false} CheckStays(pools: seq<Pool>, n: nat, url: string -> Option<string>)
    requires n <= |pools| && CheckAll(pools[..n], url).Err?
    ensures CheckAll(pools, url) == CheckAll(pools[..n], url)
    decreases |pools| - n
  {
    if n == |pools| {
      assert pools[..n] == pools;
    } else {
      assert pools[..n + 1][..n] == pools[..n];
      CheckStays(pools, n + 1, url);
    }
  }

  lemma ValidKeyHasNoNul(domains: seq<string>, url: string -> Option<string>, key: string)
    requires FirstBadDomain(domains, url).None? && key in Distinct(Keys(domains, url))
    ensures '\0' !in key
  {
    BadDomainExactly(domains, url);
    DistinctHas(Keys(domains, url), key);
    KeysHave(domains, url, key);
    var d :| d in domains && RouteDomainKey(d, url) == key;
    AcceptedHasNoNul(d, url);
  }

  /** One pool's turn in the check. */
  method CheckOnePool(claimed: map<string, string>, p: Pool, url: string -> Option<string>, ghost table: Table)
    returns (r: Option<RouteError>, claimed': map<string, string>, ghost table': Table)
    requires Represents(claimed, table)
    ensures CheckPool(table, p, url) == if r.Some? then Err(r.value) else Ok(table')
    ensures r.None? ==> Represents(claimed', table')
  {
    claimed', table' := claimed, table;
    var routing := PoolRouting(p);
    r := DomainErrorOf(p.name, routing.domains, url);
    if r.Some? {
      return;
    }
    var scopes := Scopes(routing.groups);
    var domains := Distinct(Keys(routing.domains, url));
    forall key <- domains ensures '\0' !in key {
      ValidKeyHasNoNul(routing.domains, url, key);
    }
    RepeatsClaimNothing(table, p.name, Keys(routing.domains, url), scopes);
    var conflict;
    conflict, claimed', table' := ClaimPool(claimed, p.name, domains, scopes, table);
    r := if conflict.Some? then Some(ClaimedTwice(conflict.value)) else None;
  }

  /** The first error of the pools, none exactly when every domain is valid, some pool has no
      domains or there are none, and no two names claim one domain for the same clients. */
  method FirstRoutingError(pools: seq<Pool>, url: string -> Option<string>) returns (r: Option<RouteError>)
    ensures r == FirstError(pools, url)
    ensures r.None? <==> Accepts(pools, url)
  {
    FirstErrorDecides(pools, url);
    if pools != [] && AllConditional(pools) {
      return Some(NoDefaultPool);
    }
    var claimed: map<string, string> := map[];
    ghost var table: Table := map[];
    for i := 0 to |pools|
      invariant CheckAll(pools[..i], url) == Ok(table)
      invariant Represents(claimed, table)
    {
      assert pools[..i + 1][..i] == pools[..i];
      r, claimed, table := CheckOnePool(claimed, pools[i], url, table);
      if r.Some? {
        CheckStays(pools, i + 1, url);
        return;
      }
    }
    assert pools[..|pools|] == pools;
    r := None;
  }
}
