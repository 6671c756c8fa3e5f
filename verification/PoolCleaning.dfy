/** The upstream pools of the settings form: how they are cleaned for saving, and when
    a save sends them. */
module PoolCleaning {
  import opened Options
  import opened Sorting

  /** A pool as the form holds it; a field may be missing. */
  datatype Pool = Pool(
    name: string, strategy: string, priority: int,
    servers: Option<seq<string>>, domains: Option<seq<string>>, groups: Option<seq<int>>, internal: Option<bool>)

  /** The fields the backend consumes, in canonical form. */
  datatype Normalized = Normalized(
    name: string, strategy: string, priority: int, servers: seq<string>, routing: Routing)

  datatype Routing = Routing(domains: seq<string>, groups: seq<int>, internal: bool)

  // ----- trimming

  /** ECMAScript white space and line terminators. */
  predicate IsSpace(c: char) {
    || '\t' <= c <= '\r' || c == ' ' || c == '\U{00A0}' || c == '\U{1680}' || '\U{2000}' <= c <= '\U{200A}'
    || c == '\U{2028}' || c == '\U{2029}' || c == '\U{202F}' || c == '\U{205F}' || c == '\U{3000}' || c == '\U{FEFF}'
  }

  function TrimStart(s: string): string {
    if s != [] && IsSpace(s[0]) then TrimStart(s[1..]) else s
  }

  function TrimEnd(s: string): string {
    if s != [] && IsSpace(s[|s| - 1]) then TrimEnd(s[..|s| - 1]) else s
  }

  function Trim(s: string): string {
    TrimEnd(TrimStart(s))
  }

  predicate IsTrimmed(s: string) {
    s == [] || (!IsSpace(s[0]) && !IsSpace(s[|s| - 1]))
  }

  lemma {:induction false} StartTrimmed(s: string)
    ensures TrimStart(s) == [] || !IsSpace(TrimStart(s)[0])
    decreases |s|
  {
    if s != [] && IsSpace(s[0]) {
      StartTrimmed(s[1..]);
    }
  }

  lemma {:induction false} EndTrimmed(s: string)
    requires s == [] || !IsSpace(s[0])
    ensures IsTrimmed(TrimEnd(s))
    decreases |s|
  {
    if s != [] && IsSpace(s[|s| - 1]) {
      EndTrimmed(s[..|s| - 1]);
    }
  }

  /** Trimming is idempotent, and changes exactly the strings with a space at an end. */
  lemma TrimExactly(s: string)
    ensures IsTrimmed(Trim(s))
    ensures Trim(s) == s <==> IsTrimmed(s)
  {
    StartTrimmed(s);
    EndTrimmed(TrimStart(s));
  }

  predicate AllSpace(s: string) {
    forall c <- s :: IsSpace(c)
  }

  lemma {:induction false} StartDropsSpace(s: string) returns (i: nat)
    ensures i <= |s| && TrimStart(s) == s[i..] && AllSpace(s[..i])
    decreases |s|
  {
    if s != [] && IsSpace(s[0]) {
      var j := StartDropsSpace(s[1..]);
      i := j + 1;
      assert s[..i] == [s[0]] + s[1..][..j];
    } else {
      i := 0;
    }
  }

  lemma {:induction false} EndDropsSpace(s: string) returns (i: nat)
    ensures i <= |s| && TrimEnd(s) == s[..i] && AllSpace(s[i..])
    decreases |s|
  {
    if s != [] && IsSpace(s[|s| - 1]) {
      var front := s[..|s| - 1];
      i := EndDropsSpace(front);
      assert s[i..] == front[i..] + [s[|s| - 1]];
    } else {
      i := |s|;
    }
  }

  /** Nothing but white space at the two ends is lost. */
  lemma TrimDropsOnlySpace(s: string) returns (before: string, after: string)
    ensures s == before + Trim(s) + after && AllSpace(before) && AllSpace(after)
  {
    var i := StartDropsSpace(s);
    var j := EndDropsSpace(s[i..]);
    before, after := s[..i], s[i..][j..];
  }

  // ----- lists of text

  function WithoutBlanks(lines: seq<string>): seq<string> {
    if lines == [] then []
    else
      var front, line := WithoutBlanks(lines[..|lines| - 1]), Trim(lines[|lines| - 1]);
      if line == [] then front else front + [line]
  }

  function Trimmed(lines: seq<string>): seq<string> {
    seq(|lines|, i requires 0 <= i < |lines| => Trim(lines[i]))
  }

  function NonEmpty(lines: seq<string>): seq<string> {
    if lines == [] then []
    else
      var front, line := NonEmpty(lines[..|lines| - 1]), lines[|lines| - 1];
      if line == [] then front else front + [line]
  }

  lemma TrimmedFront(lines: seq<string>)
    requires lines != []
    ensures Trimmed(lines)[..|lines| - 1] == Trimmed(lines[..|lines| - 1])
    ensures Trimmed(lines)[|lines| - 1] == Trim(lines[|lines| - 1])
  {
  }

  /** Exactly the lines that are not blank remain, trimmed and in order. */
  lemma {:induction false} OnlyBlanksRemoved(lines: seq<string>)
    ensures WithoutBlanks(lines) == NonEmpty(Trimmed(lines))
    decreases |lines|
  {
    if lines != [] {
      var front := lines[..|lines| - 1];
      OnlyBlanksRemoved(front);
      TrimmedFront(lines);
    }
  }

  predicate AllClean(lines: seq<string>) {
    lines == [] || (AllClean(lines[..|lines| - 1]) && lines[|lines| - 1] != [] && IsTrimmed(lines[|lines| - 1]))
  }

  lemma {:induction false} BlanksRemoved(lines: seq<string>)
    ensures AllClean(WithoutBlanks(lines))
    decreases |lines|
  {
    if lines != [] {
      var front := WithoutBlanks(lines[..|lines| - 1]);
      BlanksRemoved(lines[..|lines| - 1]);
      TrimExactly(lines[|lines| - 1]);
      assert (front + [Trim(lines[|lines| - 1])])[..|front|] == front;
    }
  }

  lemma {:induction false} CleanIsKept(lines: seq<string>)
    requires AllClean(lines)
    ensures WithoutBlanks(lines) == lines
    decreases |lines|
  {
    if lines != [] {
      CleanIsKept(lines[..|lines| - 1]);
      TrimExactly(lines[|lines| - 1]);
    }
  }

  // ----- sorted groups

  predicate AtMost(a: int, b: int) {
    a <= b
  }

  /** The numeric sort; equal ids are indistinguishable, so any stable or unstable sort gives this. */
  function Sort(ids: seq<int>): seq<int> {
    if ids == [] then [] else Placed(Sort(ids[..|ids| - 1]), ids[|ids| - 1], AtMost)
  }

  lemma {:induction false} SortSorts(ids: seq<int>)
    ensures Ordered(Sort(ids), AtMost)
    decreases |ids|
  {
    if ids != [] {
      SortSorts(ids[..|ids| - 1]);
      PlacedInOrder(Sort(ids[..|ids| - 1]), ids[|ids| - 1], AtMost);
    }
  }

  lemma {:induction false} SortKeepsIds(ids: seq<int>)
    ensures multiset(Sort(ids)) == multiset(ids)
    decreases |ids|
  {
    if ids != [] {
      SortKeepsIds(ids[..|ids| - 1]);
      PlacedAdds(Sort(ids[..|ids| - 1]), ids[|ids| - 1], AtMost);
      assert ids == ids[..|ids| - 1] + [ids[|ids| - 1]];
    }
  }

  lemma {:induction false} SortedIsKept(ids: seq<int>)
    requires Ordered(ids, AtMost)
    ensures Sort(ids) == ids
    decreases |ids|
  {
    if ids != [] {
      var front := ids[..|ids| - 1];
      assert Ordered(front, AtMost);
      SortedIsKept(front);
      assert ids == front + [ids[|front|]];
    }
  }

  // ----- cleaning a pool

  /** The routing fields as saved: groups and the internal flag only with domains. */
  function PoolRouting(p: Pool): Routing {
    var domains := WithoutBlanks(p.domains.GetOr([]));
    Routing(domains,
            if domains == [] then [] else Sort(p.groups.GetOr([])),
            domains != [] && p.internal.GetOr(false))
  }

  function CleanServers(p: Pool): seq<string> {
    WithoutBlanks(p.servers.GetOr([]))
  }

  function Clean(p: Pool): Pool {
    var routing := PoolRouting(p);
    p.(servers := Some(CleanServers(p)), domains := Some(routing.domains),
       groups := Some(routing.groups), internal := Some(routing.internal))
  }

  function Normalize(p: Pool): Normalized {
    Normalized(p.name, p.strategy, p.priority, CleanServers(p), PoolRouting(p))
  }

  /** A clean pool still has every server and domain of its form, trimmed and in order, and,
      when it has domains, its groups in ascending order and its internal flag. */
  lemma CleanKeepsThePool(p: Pool)
    ensures var clean := Clean(p);
            && clean.name == p.name && clean.strategy == p.strategy && clean.priority == p.priority
            && clean.servers == Some(NonEmpty(Trimmed(p.servers.GetOr([]))))
            && clean.domains == Some(NonEmpty(Trimmed(p.domains.GetOr([]))))
            && Ordered(clean.groups.value, AtMost)
            && (if clean.domains.value == [] then clean.groups.value == [] && !clean.internal.value
                else && multiset(clean.groups.value) == multiset(p.groups.GetOr([]))
                     && clean.internal.value == p.internal.GetOr(false))
  {
    OnlyBlanksRemoved(p.servers.GetOr([]));
    OnlyBlanksRemoved(p.domains.GetOr([]));
    SortSorts(p.groups.GetOr([]));
    SortKeepsIds(p.groups.GetOr([]));
  }

  lemma CleanIsStable(p: Pool)
    ensures CleanServers(Clean(p)) == CleanServers(p)
    ensures PoolRouting(Clean(p)) == PoolRouting(p)
    ensures Normalize(Clean(p)) == Normalize(p)
  {
    BlanksRemoved(p.servers.GetOr([]));
    CleanIsKept(CleanServers(p));
    BlanksRemoved(p.domains.GetOr([]));
    CleanIsKept(PoolRouting(p).domains);
    SortSorts(p.groups.GetOr([]));
    SortedIsKept(Sort(p.groups.GetOr([])));
  }

  /** Cleaning changes nothing the backend consumes: no server, no domain, no group id. */
  lemma CleanKeepsMeaning(p: Pool)
    ensures Normalize(Clean(p)) == Normalize(p)
    ensures CleanServers(p) == NonEmpty(Trimmed(p.servers.GetOr([])))
    ensures PoolRouting(p).domains == NonEmpty(Trimmed(p.domains.GetOr([])))
    ensures PoolRouting(p).domains != [] ==> multiset(PoolRouting(p).groups) == multiset(p.groups.GetOr([]))
    ensures PoolRouting(p).domains != [] ==> PoolRouting(p).internal == p.internal.GetOr(false)
  {
    CleanIsStable(p);
    CleanKeepsThePool(p);
  }

  lemma CleanIsIdempotent(p: Pool)
    ensures Clean(Clean(p)) == Clean(p)
  {
    CleanIsStable(p);
  }

  // ----- cleaning the form

  /** Every pool cleaned, and those left without a server dropped. */
  function CleanPools(pools: seq<Pool>): seq<Pool> {
    if pools == [] then []
    else
      var front, p := CleanPools(pools[..|pools| - 1]), pools[|pools| - 1];
      if CleanServers(p) == [] then front else front + [Clean(p)]
  }

  function NormalizedPools(pools: seq<Pool>): (normalized: seq<Normalized>)
    ensures |normalized| == |pools|
  {
    if pools == [] then []
    else NormalizedPools(pools[..|pools| - 1]) + [Normalize(pools[|pools| - 1])]
  }

  predicate AllServed(pools: seq<Pool>) {
    pools == [] || (AllServed(pools[..|pools| - 1]) && CleanServers(pools[|pools| - 1]) != [])
  }

  lemma {:induction false} CleanPoolsIsIdempotent(pools: seq<Pool>)
    ensures CleanPools(CleanPools(pools)) == CleanPools(pools)
    decreases |pools|
  {
    if pools != [] {
      var front, p := CleanPools(pools[..|pools| - 1]), pools[|pools| - 1];
      CleanPoolsIsIdempotent(pools[..|pools| - 1]);
      CleanIsStable(p);
      assert (front + [Clean(p)])[..|front|] == front;
    }
  }

  lemma {:induction false} CleanPoolsConcat(a: seq<Pool>, b: seq<Pool>)
    ensures CleanPools(a + b) == CleanPools(a) + CleanPools(b)
    decreases |b|
  {
    if b == [] {
      assert a + b == a;
    } else {
      assert (a + b)[..|a + b| - 1] == a + b[..|b| - 1];
      CleanPoolsConcat(a, b[..|b| - 1]);
    }
  }

  lemma CleanPoolAlone(p: Pool)
    ensures CleanPools([p]) == if forall s <- p.servers.GetOr([]) :: Trim(s) == [] then [] else [Clean(p)]
  {
    assert [p][..0] == [];
    BlankExactly(p.servers.GetOr([]));
  }

  /** Each pool is kept, cleaned, or dropped for itself: dropped exactly when all its
      servers are blank. */
  lemma CleanPoolsEach(front: seq<Pool>, p: Pool, back: seq<Pool>)
    ensures CleanPools(front + [p] + back) ==
            CleanPools(front)
            + (if forall s <- p.servers.GetOr([]) :: Trim(s) == [] then [] else [Clean(p)])
            + CleanPools(back)
  {
    CleanPoolsConcat(front, [p]);
    CleanPoolsConcat(front + [p], back);
    CleanPoolAlone(p);
  }

  lemma {:induction false} BlankExactly(lines: seq<string>)
    ensures WithoutBlanks(lines) == [] <==> forall s <- lines :: Trim(s) == []
    decreases |lines|
  {
    if lines != [] {
      BlankExactly(lines[..|lines| - 1]);
      assert lines == lines[..|lines| - 1] + [lines[|lines| - 1]];
    }
  }

  /** What of a pool the backend consumes, told from the form's fields. */
  ghost predicate SameToBackend(p: Pool, q: Pool) {
    var (domains, domains') := (NonEmpty(Trimmed(p.domains.GetOr([]))), NonEmpty(Trimmed(q.domains.GetOr([]))));
    && p.name == q.name && p.strategy == q.strategy && p.priority == q.priority
    && NonEmpty(Trimmed(p.servers.GetOr([]))) == NonEmpty(Trimmed(q.servers.GetOr([])))
    && domains == domains'
    && (domains != [] ==>
          multiset(p.groups.GetOr([])) == multiset(q.groups.GetOr([]))
          && p.internal.GetOr(false) == q.internal.GetOr(false))
  }

  lemma {:induction false} SortIsCanonical(a: seq<int>, b: seq<int>)
    requires Ordered(a, AtMost) && Ordered(b, AtMost) && multiset(a) == multiset(b)
    ensures a == b
    decreases |a|
  {
    SameLength(a, b);
    if a != [] {
      SameGreatest(a, b);
      SameRest(a, b);
      SortIsCanonical(a[..|a| - 1], b[..|b| - 1]);
      Rejoined(a, b);
    }
  }

  lemma SameLength(a: seq<int>, b: seq<int>)
    requires multiset(a) == multiset(b)
    ensures |a| == |b|
  {
    assert |a| == |multiset(a)| && |b| == |multiset(b)|;
  }

  lemma SameGreatest(a: seq<int>, b: seq<int>)
    requires Ordered(a, AtMost) && Ordered(b, AtMost) && multiset(a) == multiset(b) && a != [] && b != []
    ensures a[|a| - 1] == b[|b| - 1]
  {
    LastTaken(a);
    LastTaken(b);
    LastIsGreatest(a, b[|b| - 1]);
    LastIsGreatest(b, a[|a| - 1]);
  }

  lemma SameRest(a: seq<int>, b: seq<int>)
    requires a != [] && b != [] && multiset(a) == multiset(b) && a[|a| - 1] == b[|b| - 1]
    requires Ordered(a, AtMost) && Ordered(b, AtMost)
    ensures multiset(a[..|a| - 1]) == multiset(b[..|b| - 1])
    ensures Ordered(a[..|a| - 1], AtMost) && Ordered(b[..|b| - 1], AtMost)
  {
    LastTaken(a);
    LastTaken(b);
  }

  lemma LastTaken(ids: seq<int>)
    requires ids != []
    ensures ids[|ids| - 1] in multiset(ids)
    ensures multiset(ids[..|ids| - 1]) == multiset(ids) - multiset{ids[|ids| - 1]}
  {
    assert ids == ids[..|ids| - 1] + [ids[|ids| - 1]];
  }

  lemma {:induction false} LastIsGreatest(ids: seq<int>, id: int)
    requires Ordered(ids, AtMost) && id in multiset(ids)
    ensures id <= ids[|ids| - 1]
    decreases |ids|
  {
    var front := ids[..|ids| - 1];
    assert ids == front + [ids[|ids| - 1]];
    if id in multiset(front) {
      LastIsGreatest(front, id);
    }
  }

  lemma SameSort(a: seq<int>, b: seq<int>)
    ensures Sort(a) == Sort(b) <==> multiset(a) == multiset(b)
  {
    SortKeepsIds(a);
    SortKeepsIds(b);
    SortSorts(a);
    SortSorts(b);
    if multiset(a) == multiset(b) {
      SortIsCanonical(Sort(a), Sort(b));
    }
  }

  lemma NormalizedExactly(p: Pool, q: Pool)
    ensures Normalize(p) == Normalize(q) <==> SameToBackend(p, q)
  {
    OnlyBlanksRemoved(p.servers.GetOr([]));
    OnlyBlanksRemoved(q.servers.GetOr([]));
    OnlyBlanksRemoved(p.domains.GetOr([]));
    OnlyBlanksRemoved(q.domains.GetOr([]));
    SameSort(p.groups.GetOr([]), q.groups.GetOr([]));
  }

  lemma {:induction false} NormalizedAt(pools: seq<Pool>, i: nat)
    requires i < |pools|
    ensures NormalizedPools(pools)[i] == Normalize(pools[i])
    decreases |pools|
  {
    if i < |pools| - 1 {
      NormalizedAt(pools[..|pools| - 1], i);
    }
  }

  lemma ComparesAt(a: seq<Pool>, b: seq<Pool>, i: nat)
    requires i < |a| && i < |b|
    ensures NormalizedPools(a)[i] == NormalizedPools(b)[i] <==> SameToBackend(a[i], b[i])
  {
    NormalizedAt(a, i);
    NormalizedAt(b, i);
    NormalizedExactly(a[i], b[i]);
  }

  ghost predicate SameForms(a: seq<Pool>, b: seq<Pool>) {
    |a| == |b| && forall i :: 0 <= i < |a| ==> SameToBackend(a[i], b[i])
  }

  lemma EqualFormsAgree(a: seq<Pool>, b: seq<Pool>)
    requires NormalizedPools(a) == NormalizedPools(b)
    ensures SameForms(a, b)
  {
    forall i | 0 <= i < |a| ensures SameToBackend(a[i], b[i]) {
      ComparesAt(a, b, i);
    }
  }

  lemma AgreeingFormsEqual(a: seq<Pool>, b: seq<Pool>)
    requires SameForms(a, b)
    ensures NormalizedPools(a) == NormalizedPools(b)
  {
    forall i | 0 <= i < |a| ensures NormalizedPools(a)[i] == NormalizedPools(b)[i] {
      ComparesAt(a, b, i);
    }
  }

  /** Two forms compare equal exactly when no pool differs in anything the backend consumes. */
  lemma ComparesEqualExactly(a: seq<Pool>, b: seq<Pool>)
    ensures NormalizedPools(a) == NormalizedPools(b) <==> SameForms(a, b)
  {
    if NormalizedPools(a) == NormalizedPools(b) {
      EqualFormsAgree(a, b);
    } else if SameForms(a, b) {
      AgreeingFormsEqual(a, b);
    }
  }

  lemma {:induction false} CleanPoolsLength(pools: seq<Pool>)
    ensures |CleanPools(pools)| <= |pools|
    ensures |CleanPools(pools)| == |pools| <==> AllServed(pools)
    decreases |pools|
  {
    if pools != [] {
      CleanPoolsLength(pools[..|pools| - 1]);
    }
  }

  lemma {:induction false} ServedKeepMeaning(pools: seq<Pool>)
    requires AllServed(pools)
    ensures NormalizedPools(CleanPools(pools)) == NormalizedPools(pools)
    decreases |pools|
  {
    if pools != [] {
      var front, p := CleanPools(pools[..|pools| - 1]), pools[|pools| - 1];
      ServedKeepMeaning(pools[..|pools| - 1]);
      CleanIsStable(p);
      assert (front + [Clean(p)])[..|front|] == front;
    }
  }

  /** Cleaning reads as a change exactly when it drops a pool. */
  lemma CleanIsUnchangedExactly(pools: seq<Pool>)
    ensures NormalizedPools(CleanPools(pools)) == NormalizedPools(pools) <==> AllServed(pools)
  {
    CleanPoolsLength(pools);
    if AllServed(pools) {
      ServedKeepMeaning(pools);
    }
  }

  /** A pool of a configuration the backend accepted: it has servers, and none is blank. */
  predicate IsConfigured(p: Pool) {
    p.servers.Some? && p.servers.value != [] && forall s <- p.servers.value :: Trim(s) != []
  }

  predicate AllConfigured(pools: seq<Pool>) {
    forall p <- pools :: IsConfigured(p)
  }

  lemma {:induction false} ConfiguredAreServed(pools: seq<Pool>)
    requires AllConfigured(pools)
    ensures AllServed(pools)
    decreases |pools|
  {
    if pools != [] {
      var p := pools[|pools| - 1];
      assert p in pools && p.servers.value[|p.servers.value| - 1] in p.servers.value;
      ConfiguredAreServed(pools[..|pools| - 1]);
    }
  }

  /** A form loaded from a running configuration and saved unedited sends no pools: the
      baseline it compares with already is what cleaning leaves. */
  lemma UneditedSaveIsUnchanged(pools: seq<Pool>)
    requires AllConfigured(pools)
    ensures NormalizedPools(CleanPools(pools)) == NormalizedPools(pools)
    ensures pools != [] ==> CleanPools(pools) != []
  {
    ConfiguredAreServed(pools);
    CleanIsUnchangedExactly(pools);
    CleanPoolsLength(pools);
  }

  // ----- the form

  datatype Outcome =
    | NoServers                      // every pool lost its servers
    | Rejected                       // a check of the form failed
    | Sent(pools: Option<seq<Pool>>, accepted: bool)

  class SettingsForm {
    var pools: seq<Pool>
    /** The pools as last loaded or saved, once they have been. */
    var saved: Option<seq<Normalized>>

    /** What a successful save leaves. */
    ghost predicate Settled()
      reads this
    {
      CleanPools(pools) == pools && saved == Some(NormalizedPools(pools))
    }

    constructor ()
      ensures pools == [] && saved == None
    {
      pools, saved := [], None;
    }

    method Load(loaded: seq<Pool>)
      modifies this
      ensures pools == loaded && saved == Some(NormalizedPools(loaded))
    {
      pools := loaded;
      saved := Some(NormalizedPools(pools));
    }

    /** `poolsValid` stands for the checks of edited pools, `restValid` for the form's other
        checks, and `accepted` for the backend's answer. */
    method SaveConfig(poolsValid: seq<Pool> -> bool, restValid: bool, accepted: bool) returns (r: Outcome)
      modifies this
      ensures r.NoServers? <==> old(pools) != [] && CleanPools(old(pools)) == []
      ensures r.Rejected? <==>
              && !r.NoServers?
              && (!restValid || (old(saved) != Some(NormalizedPools(CleanPools(old(pools))))
                                 && !poolsValid(CleanPools(old(pools)))))
      ensures r.Sent? && r.pools.Some? ==> r.pools.value == CleanPools(old(pools))
      ensures r.Sent? ==> r.accepted == accepted
      ensures r.Sent? ==> (r.pools.None? <==> old(saved) == Some(NormalizedPools(CleanPools(old(pools)))))
      ensures if r.Sent? && accepted then Settled() && pools == CleanPools(old(pools)) else unchanged(this)
      ensures old(Settled()) ==> Settled() && pools == old(pools) && (restValid ==> r == Sent(None, accepted))
    {
      CleanPoolsIsIdempotent(pools);
      var cleanedPools := CleanPools(pools);
      if pools != [] && cleanedPools == [] {
        return NoServers;
      }
      var poolsChanged := Some(NormalizedPools(cleanedPools)) != saved;
      if poolsChanged && !poolsValid(cleanedPools) {
        return Rejected;
      }
      if !restValid {
        return Rejected;
      }
      r := Sent(if poolsChanged then Some(cleanedPools) else None, accepted);
      if accepted {
        pools := cleanedPools;
        saved := Some(NormalizedPools(cleanedPools));
      }
    }
  }
}
