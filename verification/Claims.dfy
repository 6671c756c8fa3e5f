/** The table of routing claims: which pool answers a domain for which clients. Pools
    claim in order, and a claim already held by a pool of another name is an error. */
module Claims {
  import opened Options

  /** A normalised domain for one client group, or for every client. */
  datatype Claim = Claim(domain: string, scope: Option<int>)

  datatype Conflict = Conflict(claim: Claim, owner: string, pool: string)

  type Table = map<Claim, string>

  function ClaimAll(claimed: Table, name: string, claims: seq<Claim>): Result<Table, Conflict> {
    if claims == [] then Ok(claimed)
    else
      var claim := claims[|claims| - 1];
      match ClaimAll(claimed, name, claims[..|claims| - 1])
      case Err(e) => Err(e)
      case Ok(table) =>
        if claim in table && table[claim] != name then Err(Conflict(claim, table[claim], name))
        else Ok(table[claim := name])
  }

  /** What one pool's claims do to one entry of the table. */
  lemma {:induction false} ClaimAllExactly(claimed: Table, name: string, claims: seq<Claim>, c: Claim)
    requires ClaimAll(claimed, name, claims).Ok?
    ensures var table := ClaimAll(claimed, name, claims).value;
            if c in claims then c in table && table[c] == name && (c in claimed ==> claimed[c] == name)
            else (c in table <==> c in claimed) && (c in table ==> table[c] == claimed[c])
    decreases |claims|
  {
    if claims != [] {
      var front, claim := claims[..|claims| - 1], claims[|claims| - 1];
      ClaimAllExactly(claimed, name, front, c);
      ClaimAllExactly(claimed, name, front, claim);
      assert claims == front + [claim];
    }
  }

  /** A conflict names a claim of the pool that another pool held before. */
  lemma {:induction false} ConflictIsReal(claimed: Table, name: string, claims: seq<Claim>)
    requires ClaimAll(claimed, name, claims).Err?
    ensures var e := ClaimAll(claimed, name, claims).error;
            e.claim in claims && e.claim in claimed && claimed[e.claim] == e.owner && e.owner != name && e.pool == name
    decreases |claims|
  {
    var front, claim := claims[..|claims| - 1], claims[|claims| - 1];
    assert claims == front + [claim];
    if ClaimAll(claimed, name, front).Err? {
      ConflictIsReal(claimed, name, front);
    } else {
      ClaimAllExactly(claimed, name, front, claim);
    }
  }

  lemma {:induction false} ClaimInTwoParts(claimed: Table, name: string, a: seq<Claim>, b: seq<Claim>)
    ensures ClaimAll(claimed, name, a + b) ==
            match ClaimAll(claimed, name, a)
            case Err(e) => Err(e)
            case Ok(table) => ClaimAll(table, name, b)
    decreases |b|
  {
    if b == [] {
      assert a + b == a;
    } else {
      var front := b[..|b| - 1];
      ClaimInTwoParts(claimed, name, a, front);
      assert (a + b)[..|a + b| - 1] == a + front;
    }
  }

  /** Claims a pool already holds change nothing. */
  lemma {:induction false} ClaimingAgain(table: Table, name: string, claims: seq<Claim>)
    requires forall c <- claims :: c in table && table[c] == name
    ensures ClaimAll(table, name, claims) == Ok(table)
    decreases |claims|
  {
    if claims != [] {
      var claim := claims[|claims| - 1];
      assert claim in claims;
      ClaimingAgain(table, name, claims[..|claims| - 1]);
      assert table[claim := name] == table;
    }
  }

  // ----- a pool's claims

  /** One domain for each scope. */
  function Row(domain: string, scopes: seq<Option<int>>): (claims: seq<Claim>)
    ensures |claims| == |scopes|
  {
    if scopes == [] then [] else Row(domain, scopes[..|scopes| - 1]) + [Claim(domain, scopes[|scopes| - 1])]
  }

  function Cross(domains: seq<string>, scopes: seq<Option<int>>): seq<Claim> {
    if domains == [] then []
    else Cross(domains[..|domains| - 1], scopes) + Row(domains[|domains| - 1], scopes)
  }

  lemma {:induction false} RowHas(domain: string, scopes: seq<Option<int>>, c: Claim)
    ensures c in Row(domain, scopes) <==> c.domain == domain && c.scope in scopes
    decreases |scopes|
  {
    if scopes != [] {
      RowHas(domain, scopes[..|scopes| - 1], c);
      assert scopes == scopes[..|scopes| - 1] + [scopes[|scopes| - 1]];
    }
  }

  lemma {:induction false} CrossHas(domains: seq<string>, scopes: seq<Option<int>>, c: Claim)
    ensures c in Cross(domains, scopes) <==> c.domain in domains && c.scope in scopes
    decreases |domains|
  {
    if domains != [] {
      var front, last := domains[..|domains| - 1], domains[|domains| - 1];
      CrossHas(front, scopes, c);
      RowHas(last, scopes, c);
      assert domains == front + [last];
    }
  }

  /** The domains in first-occurrence order, as a JavaScript Set keeps them. */
  function Distinct(domains: seq<string>): seq<string> {
    if domains == [] then []
    else
      var front, last := Distinct(domains[..|domains| - 1]), domains[|domains| - 1];
      if last in front then front else front + [last]
  }

  lemma {:induction false} DistinctHas(domains: seq<string>, d: string)
    ensures d in Distinct(domains) <==> d in domains
    decreases |domains|
  {
    if domains != [] {
      DistinctHas(domains[..|domains| - 1], d);
      assert domains == domains[..|domains| - 1] + [domains[|domains| - 1]];
    }
  }

  /** Claiming each domain once is claiming every occurrence: same table, same error. */
  lemma {:induction false} RepeatsClaimNothing(
    claimed: Table, name: string, domains: seq<string>, scopes: seq<Option<int>>)
    ensures ClaimAll(claimed, name, Cross(Distinct(domains), scopes)) == ClaimAll(claimed, name, Cross(domains, scopes))
    decreases |domains|
  {
    if domains != [] {
      var front, last := domains[..|domains| - 1], domains[|domains| - 1];
      RepeatsClaimNothing(claimed, name, front, scopes);
      ClaimInTwoParts(claimed, name, Cross(front, scopes), Row(last, scopes));
      if last in Distinct(front) {
        if ClaimAll(claimed, name, Cross(front, scopes)).Ok? {
          AlreadyClaimed(claimed, name, front, last, scopes);
        }
      } else {
        var distinct := Distinct(front);
        assert (distinct + [last])[..|distinct|] == distinct;
        ClaimInTwoParts(claimed, name, Cross(distinct, scopes), Row(last, scopes));
      }
    }
  }

  lemma AlreadyClaimed(claimed: Table, name: string, domains: seq<string>, domain: string, scopes: seq<Option<int>>)
    requires ClaimAll(claimed, name, Cross(domains, scopes)).Ok? && domain in Distinct(domains)
    ensures var table := ClaimAll(claimed, name, Cross(domains, scopes)).value;
            ClaimAll(table, name, Row(domain, scopes)) == Ok(table)
  {
    var table := ClaimAll(claimed, name, Cross(domains, scopes)).value;
    forall c <- Row(domain, scopes) ensures c in table && table[c] == name {
      RowHas(domain, scopes, c);
      DistinctHas(domains, domain);
      CrossHas(domains, scopes, c);
      ClaimAllExactly(claimed, name, Cross(domains, scopes), c);
    }
    ClaimingAgain(table, name, Row(domain, scopes));
  }

  // ----- the textual keys

  function Digit(n: nat): char
    requires n < 10
  {
    '0' + n as char
  }

  function Digits(n: nat): (digits: string)
    ensures digits != []
  {
    if n < 10 then [Digit(n)] else Digits(n / 10) + [Digit(n % 10)]
  }

  function Decimal(n: int): string {
    if n < 0 then ['-'] + Digits(-n) else Digits(n)
  }

  const NULL_TEXT := "null"

  function ScopeText(scope: Option<int>): string {
    match scope
    case None => NULL_TEXT
    case Some(id) => Decimal(id)
  }

  function Key(c: Claim): string {
    c.domain + ['\0'] + ScopeText(c.scope)
  }

  lemma {:induction false} DigitsStart(n: nat)
    ensures '0' <= Digits(n)[0] <= '9'
    decreases n
  {
    if n >= 10 {
      DigitsStart(n / 10);
    }
  }

  lemma {:induction false} DigitsInjective(a: nat, b: nat)
    requires Digits(a) == Digits(b)
    ensures a == b
    decreases a
  {
    if a >= 10 && b >= 10 {
      assert Digits(a)[..|Digits(a)| - 1] == Digits(a / 10) && Digits(b)[..|Digits(b)| - 1] == Digits(b / 10);
      DigitsInjective(a / 10, b / 10);
    }
  }

  lemma ScopeTextStart(scope: Option<int>)
    ensures ScopeText(scope) != []
    ensures ScopeText(scope)[0] == 'n' <==> scope.None?
    ensures ScopeText(scope)[0] == '-' <==> scope.Some? && scope.value < 0
  {
    if scope.Some? {
      DigitsStart(if scope.value < 0 then -scope.value else scope.value);
    }
  }

  lemma ScopeTextInjective(a: Option<int>, b: Option<int>)
    requires ScopeText(a) == ScopeText(b)
    ensures a == b
  {
    ScopeTextStart(a);
    ScopeTextStart(b);
    if a.Some? {
      if a.value < 0 {
        assert Decimal(a.value)[1..] == Digits(-a.value);
        assert Decimal(b.value)[1..] == Digits(-b.value);
        DigitsInjective(-a.value, -b.value);
      } else {
        DigitsInjective(a.value, b.value);
      }
    }
  }

  lemma NoNulInside(c: Claim, i: nat)
    requires '\0' !in c.domain && i < |c.domain|
    ensures Key(c)[i] != '\0'
  {
    assert Key(c)[i] == c.domain[i] && c.domain[i] in c.domain;
  }

  /** A domain without NUL and a scope are read back from their key. */
  lemma KeyInjective(a: Claim, b: Claim)
    requires '\0' !in a.domain && '\0' !in b.domain
    ensures Key(a) == Key(b) <==> a == b
  {
    if Key(a) == Key(b) {
      if |a.domain| < |b.domain| {
        NoNulInside(b, |a.domain|);
      } else if |b.domain| < |a.domain| {
        NoNulInside(a, |b.domain|);
      } else {
        assert a.domain == Key(a)[..|a.domain|] && ScopeText(a.scope) == Key(a)[|a.domain| + 1..];
        assert b.domain == Key(b)[..|b.domain|] && ScopeText(b.scope) == Key(b)[|b.domain| + 1..];
        ScopeTextInjective(a.scope, b.scope);
      }
    }
  }
}
