/** How the /queries filters narrow a selection of logged queries, and which
    rows of the query log the narrowed selection denotes. */
module QuerySelection {
  import opened Ascii
  import opened Options

  datatype Category = Allowed | Blocked | Cache | Upstream

  /** The columns of a logged query that the category and upstream filters read. */
  datatype Query = Query(blocked: bool, cacheHit: bool, status: Option<string>, upstream: Option<string>)

  const NOT_UPSTREAM := ["LOCAL_DNS", "RATE_LIMITED", "RATE_LIMITED_TC"]

  /** The rows of a category, as the query log filters them. */
  predicate InCategory(q: Query, category: Category) {
    match category
    case Allowed => !q.blocked
    case Blocked => q.blocked
    case Cache => q.cacheHit
    case Upstream => !q.cacheHit && !q.blocked && (q.status.None? || q.status.value !in NOT_UPSTREAM)
  }

  /** What is logged of a query: an answer, from the cache or not, or a refusal. Both start
      from the same record, and only a refusal marks it blocked. */
  datatype Logged = Answered(cacheHit: bool, status: Option<string>, upstream: Option<string>) | Refused(reason: string)

  const BASE_LOG := Query(false, false, Some("NOERROR"), None)

  function LogOf(l: Logged): Query {
    match l
    case Answered(cacheHit, status, upstream) =>
      BASE_LOG.(cacheHit := cacheHit, status := status, upstream := upstream)
    case Refused(reason) => BASE_LOG.(blocked := true, status := Some(reason))
  }

  datatype Filter = Filter(category: Option<Category>, upstream: Option<string>, isEmpty: bool)

  const NO_FILTER := Filter(None, None, false)

  predicate Selected(f: Filter, q: Query) {
    && !f.isEmpty
    && (f.category.Some? ==> InCategory(q, f.category.value))
    && (f.upstream.Some? ==> q.upstream == f.upstream)
  }

  function Restricted(f: Filter, category: Category): Filter {
    match (f.category, category)
    case (None, c) => f.(category := Some(c))
    case (Some(Allowed), Cache) => f.(category := Some(Cache))
    case (Some(Allowed), Upstream) => f.(category := Some(Upstream))
    case (Some(Cache), Allowed) => f
    case (Some(Upstream), Allowed) => f
    case (Some(current), c) => if current == c then f else f.(isEmpty := true)
  }

  /** FTL's query statuses, in the order of its enum. */
  const FTL_QUERY_STATUSES := [
    "UNKNOWN", "GRAVITY", "FORWARDED", "CACHE", "REGEX", "DENYLIST", "EXTERNAL_BLOCKED_IP",
    "EXTERNAL_BLOCKED_NULL", "EXTERNAL_BLOCKED_NXRA", "GRAVITY_CNAME", "REGEX_CNAME", "DENYLIST_CNAME",
    "RETRIED", "RETRIED_DNSSEC", "IN_PROGRESS", "DBBUSY", "SPECIAL_DOMAIN", "CACHE_STALE",
    "EXTERNAL_BLOCKED_EDE15"]

  /** The category a status narrows to; None for a status no logged query has. */
  function StatusCategory(name: string): Option<Category> {
    if name in ["GRAVITY", "REGEX", "DENYLIST", "GRAVITY_CNAME"] then Some(Blocked)
    else if name == "FORWARDED" then Some(Upstream)
    else if name == "CACHE" then Some(Cache)
    else None
  }

  predicate EqIgnoreAsciiCase(a: string, b: string) {
    |a| == |b| && forall i :: 0 <= i < |a| ==> LowerChar(a[i]) == LowerChar(b[i])
  }

  function FirstWord(s: string): string {
    if s == [] || s[0] == ' ' then [] else [s[0]] + FirstWord(s[1..])
  }

  class Selection {
    var filter: Filter

    constructor ()
      ensures filter == NO_FILTER
    {
      filter := NO_FILTER;
    }

    method RestrictCategory(category: Category)
      modifies this
      ensures filter == Restricted(old(filter), category)
    {
      if filter.category.None? {
        filter := filter.(category := Some(category));
        return;
      }
      var current := filter.category.value;
      if current == category {
        return;
      }
      if current == Allowed && (category == Cache || category == Upstream) {
        filter := filter.(category := Some(category));
      } else if (current == Cache || current == Upstream) && category == Allowed {
        return;
      } else {
        filter := filter.(isEmpty := true);
      }
    }

    /** Ok when `status` spells an FTL status, whatever its case; otherwise FTL's 400. */
    method SelectStatus(status: string) returns (ok: bool)
      modifies this
      ensures ok <==> exists i :: 0 <= i < |FTL_QUERY_STATUSES| && EqIgnoreAsciiCase(FTL_QUERY_STATUSES[i], status)
      ensures !ok ==> filter == old(filter)
      ensures ok ==> exists name :: name in FTL_QUERY_STATUSES && EqIgnoreAsciiCase(name, status)
                                    && filter == StatusSelected(old(filter), name)
    {
      for i := 0 to |FTL_QUERY_STATUSES|
        invariant filter == old(filter)
        invariant forall j :: 0 <= j < i ==> !EqIgnoreAsciiCase(FTL_QUERY_STATUSES[j], status)
      {
        var name := FTL_QUERY_STATUSES[i];
        if EqIgnoreAsciiCase(name, status) {
          var category := StatusCategory(name);
          if category.Some? {
            RestrictCategory(category.value);
          } else {
            filter := filter.(isEmpty := true);
          }
          return true;
        }
      }
      ok := false;
    }

    /** `answered` maps an `ip#port` to the busiest server that answered under it. */
    method SelectUpstream(upstream: string, answered: string -> Option<string>)
      modifies this
      ensures filter == UpstreamSelected(old(filter), FirstWord(upstream), answered)
    {
      var word := FirstWord(upstream);
      if word == "blocklist" {
        RestrictCategory(Blocked);
      } else if word == "cache" {
        RestrictCategory(Cache);
      } else if word == "permitted" {
        RestrictCategory(Allowed);
      } else if '#' in word {
        var server := answered(word);
        filter := if server.Some? then filter.(upstream := server) else filter.(isEmpty := true);
      } else {
        filter := filter.(upstream := Some(word));
      }
    }
  }

  function StatusSelected(f: Filter, name: string): Filter {
    match StatusCategory(name)
    case Some(category) => Restricted(f, category)
    case None => f.(isEmpty := true)
  }

  function UpstreamSelected(f: Filter, word: string, answered: string -> Option<string>): Filter {
    if word == "blocklist" then Restricted(f, Blocked)
    else if word == "cache" then Restricted(f, Cache)
    else if word == "permitted" then Restricted(f, Allowed)
    else if '#' in word then
      (match answered(word) case Some(server) => f.(upstream := Some(server)) case None => f.(isEmpty := true))
    else f.(upstream := Some(word))
  }

  function RestrictedAll(categories: seq<Category>): Filter {
    if categories == [] then NO_FILTER
    else Restricted(RestrictedAll(categories[..|categories| - 1]), categories[|categories| - 1])
  }

  predicate Conflicting(categories: seq<Category>) {
    || (Blocked in categories && (Allowed in categories || Cache in categories || Upstream in categories))
    || (Cache in categories && Upstream in categories)
  }

  function Narrowest(categories: seq<Category>): Option<Category> {
    if Blocked in categories then Some(Blocked)
    else if Cache in categories then Some(Cache)
    else if Upstream in categories then Some(Upstream)
    else if Allowed in categories then Some(Allowed)
    else None
  }

  /** A sequence of restrictions ends in a state that only its members decide. */
  lemma {:induction false} MembersDecide(categories: seq<Category>)
    ensures var f := RestrictedAll(categories);
            && f.upstream == None
            && (f.isEmpty <==> Conflicting(categories))
            && (!f.isEmpty ==> f.category == Narrowest(categories))
  {
    if categories != [] {
      var n := |categories| - 1;
      MembersDecide(categories[..n]);
      assert categories == categories[..n] + [categories[n]];
      assert forall c :: c in categories <==> c in categories[..n] || c == categories[n];
    }
  }

  /** The order restrictions come in never matters, nor do repeats. */
  lemma OrderDoesNotMatter(a: seq<Category>, b: seq<Category>, q: Query)
    requires forall c :: c in a <==> c in b
    ensures Selected(RestrictedAll(a), q) <==> Selected(RestrictedAll(b), q)
  {
    MembersDecide(a);
    MembersDecide(b);
  }

  predicate InEvery(categories: seq<Category>, q: Query) {
    forall c :: c in categories ==> InCategory(q, c)
  }

  /** A row that is not a blocked cache hit is selected exactly when it is in
      every category asked for. */
  lemma SelectsIntersection(categories: seq<Category>, q: Query)
    requires !(q.blocked && q.cacheHit)
    ensures Selected(RestrictedAll(categories), q) <==> InEvery(categories, q)
  {
    MembersDecide(categories);
  }

  /** Of the queries the log can hold, any sequence of restrictions, in any order, selects
      exactly those in every category asked for. */
  lemma LoggedRowsIntersect(categories: seq<Category>, l: Logged)
    ensures Selected(RestrictedAll(categories), LogOf(l)) <==> InEvery(categories, LogOf(l))
  {
    SelectsIntersection(categories, LogOf(l));
  }

  /** The selection is the intersection for every sequence of categories exactly
      for rows that are not both blocked and cache hits: the cache category does
      not exclude blocked rows, yet the narrowing treats the two as disjoint. */
  lemma IntersectionExactly(q: Query)
    ensures (forall categories :: Selected(RestrictedAll(categories), q) <==> InEvery(categories, q))
            <==> !(q.blocked && q.cacheHit)
  {
    if q.blocked && q.cacheHit {
      var both := [Blocked, Cache];
      MembersDecide(both);
      assert InEvery(both, q) && !Selected(RestrictedAll(both), q);
    } else {
      forall categories
        ensures Selected(RestrictedAll(categories), q) <==> InEvery(categories, q)
      {
        SelectsIntersection(categories, q);
      }
    }
  }

  /** A request's `status` and `upstream` together select the rows of both. */
  lemma StatusAndUpstreamIntersect(status: string, word: string, answered: string -> Option<string>, q: Query)
    requires !(q.blocked && q.cacheHit)
    ensures Selected(UpstreamSelected(StatusSelected(NO_FILTER, status), word, answered), q)
       <==> && Selected(StatusSelected(NO_FILTER, status), q)
            && Selected(UpstreamSelected(NO_FILTER, word, answered), q)
  {
  }

  /** The same of every query the log can hold. */
  lemma LoggedRowsMeetBothFilters(status: string, word: string, answered: string -> Option<string>, l: Logged)
    ensures Selected(UpstreamSelected(StatusSelected(NO_FILTER, status), word, answered), LogOf(l))
       <==> && Selected(StatusSelected(NO_FILTER, status), LogOf(l))
            && Selected(UpstreamSelected(NO_FILTER, word, answered), LogOf(l))
  {
    StatusAndUpstreamIntersect(status, word, answered, LogOf(l));
  }

  // ----- what the words of the filters select of what is logged

  /** An answer from an upstream server, not from the cache or local configuration. */
  predicate FromUpstream(l: Logged) {
    l.Answered? && !l.cacheHit
    && l.status != Some("LOCAL_DNS") && l.status != Some("RATE_LIMITED") && l.status != Some("RATE_LIMITED_TC")
  }

  /** The logged queries each FTL status selects: every block for the blocked statuses, and
      none for a status Ferrous never reports. */
  lemma StatusSelects(name: string, l: Logged)
    ensures Selected(StatusSelected(NO_FILTER, name), LogOf(l)) <==>
            match name
            case "GRAVITY" => l.Refused?
            case "REGEX" => l.Refused?
            case "DENYLIST" => l.Refused?
            case "GRAVITY_CNAME" => l.Refused?
            case "FORWARDED" => FromUpstream(l)
            case "CACHE" => l.Answered? && l.cacheHit
            case _ => false
  {
  }

  /** The logged queries each first word of `upstream` selects. */
  lemma UpstreamSelects(word: string, answered: string -> Option<string>, l: Logged)
    ensures Selected(UpstreamSelected(NO_FILTER, word, answered), LogOf(l)) <==>
            match word
            case "blocklist" => l.Refused?
            case "cache" => l.Answered? && l.cacheHit
            case "permitted" => l.Answered?
            case _ =>
              && l.Answered? && l.upstream.Some?
              && l.upstream == if '#' in word then answered(word) else Some(word)
  {
  }

  /** The first word ends at the first blank. */
  lemma {:induction false} FirstWordExactly(s: string)
    ensures var n := |FirstWord(s)|;
            && n <= |s| && FirstWord(s) == s[..n] && (n == |s| || s[n] == ' ')
            && forall i :: 0 <= i < n ==> s[i] != ' '
  {
    if s != [] && s[0] != ' ' {
      FirstWordExactly(s[1..]);
    }
  }

  lemma CaseIgnored(a: string, b: string)
    ensures EqIgnoreAsciiCase(a, b) <==> SameIgnoringCase(a, b)
  {
    LowerEqualExactly(a, b);
    if EqIgnoreAsciiCase(a, b) {
      assert Lower(a) == Lower(b);
    }
    if SameIgnoringCase(a, b) {
      assert forall i :: 0 <= i < |a| ==> Lower(a)[i] == LowerChar(a[i]) && Lower(b)[i] == LowerChar(b[i]);
    }
  }
}
