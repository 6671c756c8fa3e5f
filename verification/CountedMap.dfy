/** The counting protocol of CountedDashMap: every operation is cut into the
    atomic steps other threads can observe, and a run interleaves the steps of
    any number of threads in any order. */
module CountedMapProtocol {
  import opened Options

  /** `AtomicUsize` arithmetic wraps at this modulus. */
  const USIZE_MODULUS: nat := 0x1_0000_0000_0000_0000

  /** Where a thread stands inside an operation. */
  datatype Thread<K, V> =
    | Idle
    | Counted(key: K, value: V)  // insert, between its fetch_add and the map write
    | Owing                      // one fetch_sub(1) still due
    | Retaining(removed: nat)    // retain, before its single fetch_sub(removed)

  datatype Shared<K, V> = Shared(len: nat, entries: map<K, V>, threads: seq<Thread<K, V>>)

  datatype Action<K, V> =
    | BeginInsert(key: K, value: V)
    | LandInsert
    | Remove(key: K)
    | RemoveIf(key: K, matches: bool)       // what the closure answers under the shard lock
    | Settle
    | BeginRetain
    | Visit(key: K, keep: bool, value: V)   // retain's closure on one entry, which it may rewrite
    | EndRetain

  datatype Event<K, V> = Event(thread: nat, action: Action<K, V>)

  function FetchAdd(len: nat, n: nat): nat {
    (len + n) % USIZE_MODULUS
  }

  function FetchSub(len: nat, n: nat): nat {
    (len - n) % USIZE_MODULUS
  }

  function SetThread<K, V>(s: Shared<K, V>, t: nat, thread: Thread<K, V>): Shared<K, V>
    requires t < |s.threads|
  {
    s.(threads := s.threads[t := thread])
  }

  /** One atomic step of thread `t`; an action the thread is not ready for does nothing. */
  function Apply<K, V>(s: Shared<K, V>, t: nat, action: Action<K, V>): Shared<K, V> {
    if t >= |s.threads| then s else
    match (s.threads[t], action)
    case (Idle, BeginInsert(k, v)) =>
      SetThread(s.(len := FetchAdd(s.len, 1)), t, Counted(k, v))
    case (Counted(k, v), LandInsert) =>
      SetThread(s.(entries := s.entries[k := v]), t, if k in s.entries then Owing else Idle)
    case (Idle, Remove(k)) =>
      if k in s.entries then SetThread(s.(entries := s.entries - {k}), t, Owing) else s
    case (Idle, RemoveIf(k, matches)) =>
      if k in s.entries && matches then SetThread(s.(entries := s.entries - {k}), t, Owing) else s
    case (Owing, Settle) =>
      SetThread(s.(len := FetchSub(s.len, 1)), t, Idle)
    case (Idle, BeginRetain) =>
      SetThread(s, t, Retaining(0))
    case (Retaining(removed), Visit(k, keep, v)) =>
      if k !in s.entries then s
      else if keep then s.(entries := s.entries[k := v])
      else SetThread(s.(entries := s.entries - {k}), t, Retaining(removed + 1))
    case (Retaining(removed), EndRetain) =>
      SetThread(s.(len := FetchSub(s.len, removed)), t, Idle)
    case _ => s
  }

  function Run<K, V>(s: Shared<K, V>, events: seq<Event<K, V>>): Shared<K, V> {
    if events == [] then s
    else
      var before := Run(s, events[..|events| - 1]);
      Apply(before, events[|events| - 1].thread, events[|events| - 1].action)
  }

  /** `from_map` over any initial entries, with `n` threads about to use it. */
  function Start<K, V>(entries: map<K, V>, n: nat): Shared<K, V> {
    Shared(|entries| % USIZE_MODULUS, entries, seq(n, _ => Idle))
  }

  /** What the count holds for a thread beyond the entries in the map. */
  function Credit<K, V>(thread: Thread<K, V>): nat {
    match thread
    case Idle => 0
    case Counted(_, _) => 1
    case Owing => 1
    case Retaining(removed) => removed
  }

  function Credits<K, V>(threads: seq<Thread<K, V>>): nat {
    if threads == [] then 0 else Credit(threads[0]) + Credits(threads[1..])
  }

  /** The count is the true size plus every uncommitted credit, modulo the width of the counter. */
  ghost predicate Accounted<K, V>(s: Shared<K, V>) {
    s.len == (|s.entries| + Credits(s.threads)) % USIZE_MODULUS
  }

  lemma {:induction false} CreditsUpdate<K, V>(threads: seq<Thread<K, V>>, t: nat, thread: Thread<K, V>)
    requires t < |threads|
    ensures Credits(threads[t := thread]) == Credits(threads) - Credit(threads[t]) + Credit(thread)
  {
    if t == 0 {
      assert threads[t := thread][1..] == threads[1..];
    } else {
      assert threads[t := thread][1..] == threads[1..][t - 1 := thread];
      CreditsUpdate(threads[1..], t - 1, thread);
    }
  }

  lemma {:induction false} CreditBelowCredits<K, V>(threads: seq<Thread<K, V>>, t: nat)
    requires t < |threads|
    ensures Credit(threads[t]) <= Credits(threads)
  {
    if t > 0 {
      CreditBelowCredits(threads[1..], t - 1);
    }
  }

  lemma {:induction false} CreditsOfIdle<K, V>(threads: seq<Thread<K, V>>)
    requires forall t :: 0 <= t < |threads| ==> threads[t].Idle?
    ensures Credits(threads) == 0
  {
    if threads != [] {
      CreditsOfIdle(threads[1..]);
    }
  }

  lemma RemovalShrinks<K, V>(entries: map<K, V>, k: K)
    requires k in entries
    ensures |entries - {k}| == |entries| - 1
  {
    assert (entries - {k}).Keys == entries.Keys - {k};
  }

  lemma InsertionGrows<K, V>(entries: map<K, V>, k: K, v: V)
    ensures |entries[k := v]| == |entries| + if k in entries then 0 else 1
  {
    assert entries[k := v].Keys == entries.Keys + {k};
  }

  lemma FetchTracksSum(len: nat, sum: nat, n: nat)
    requires len == sum % USIZE_MODULUS
    ensures FetchAdd(len, n) == (sum + n) % USIZE_MODULUS
    ensures n <= sum ==> FetchSub(len, n) == (sum - n) % USIZE_MODULUS
  {
    CongruentRemainders(len + n, sum + n, sum / USIZE_MODULUS);
    CongruentRemainders(len - n, sum - n, sum / USIZE_MODULUS);
  }

  lemma CongruentRemainders(x: int, y: int, q: int)
    requires y == x + USIZE_MODULUS * q
    ensures x % USIZE_MODULUS == y % USIZE_MODULUS
  {
    var m := USIZE_MODULUS;
    assert y == m * (x / m + q) + x % m;
    assert y == m * (y / m) + y % m;
    var d := x / m + q - y / m;
    assert m * d == y % m - x % m;
    assert -m < m * d < m;
    assert d == 0;
  }

  lemma AdditionKeepsAccount<K, V>(s: Shared<K, V>, t: nat, thread: Thread<K, V>)
    requires Accounted(s) && t < |s.threads| && Credit(thread) == Credit(s.threads[t]) + 1
    ensures Accounted(SetThread(s.(len := FetchAdd(s.len, 1)), t, thread))
  {
    CreditsUpdate(s.threads, t, thread);
    FetchTracksSum(s.len, |s.entries| + Credits(s.threads), 1);
  }

  lemma SubtractionKeepsAccount<K, V>(s: Shared<K, V>, t: nat, n: nat)
    requires Accounted(s) && t < |s.threads| && Credit(s.threads[t]) == n
    ensures Accounted(SetThread(s.(len := FetchSub(s.len, n)), t, Idle))
  {
    CreditBelowCredits(s.threads, t);
    CreditsUpdate(s.threads, t, Idle);
    FetchTracksSum(s.len, |s.entries| + Credits(s.threads), n);
  }

  lemma RemovalKeepsAccount<K, V>(s: Shared<K, V>, t: nat, k: K, thread: Thread<K, V>)
    requires Accounted(s) && t < |s.threads| && Credit(thread) == Credit(s.threads[t]) + 1
    requires k in s.entries
    ensures Accounted(SetThread(s.(entries := s.entries - {k}), t, thread))
  {
    RemovalShrinks(s.entries, k);
    CreditsUpdate(s.threads, t, thread);
  }

  lemma LandingKeepsAccount<K, V>(s: Shared<K, V>, t: nat, k: K, v: V)
    requires Accounted(s) && t < |s.threads| && Credit(s.threads[t]) == 1
    ensures Accounted(SetThread(s.(entries := s.entries[k := v]), t, if k in s.entries then Owing else Idle))
  {
    InsertionGrows(s.entries, k, v);
    CreditsUpdate(s.threads, t, if k in s.entries then Owing else Idle);
  }

  lemma VisitKeepsAccount<K, V>(s: Shared<K, V>, t: nat, k: K, keep: bool, v: V)
    requires Accounted(s) && t < |s.threads| && s.threads[t].Retaining?
    ensures Accounted(Apply(s, t, Visit(k, keep, v)))
  {
    if k in s.entries {
      if keep {
        InsertionGrows(s.entries, k, v);
      } else {
        RemovalKeepsAccount(s, t, k, Retaining(s.threads[t].removed + 1));
      }
    }
  }

  lemma BeginningKeepsAccount<K, V>(s: Shared<K, V>, t: nat)
    requires Accounted(s) && t < |s.threads| && s.threads[t].Idle?
    ensures Accounted(SetThread(s, t, Retaining(0)))
  {
    CreditsUpdate(s.threads, t, Retaining(0));
    assert Credits(SetThread(s, t, Retaining(0)).threads) == Credits(s.threads);
  }

  lemma TakingKeepsAccount<K, V>(s: Shared<K, V>, t: nat, k: K)
    requires Accounted(s) && t < |s.threads| && s.threads[t].Idle? && k in s.entries
    ensures Accounted(SetThread(s.(entries := s.entries - {k}), t, Owing))
  {
    RemovalKeepsAccount(s, t, k, Owing);
  }

  lemma StartingKeepsAccount<K, V>(s: Shared<K, V>, t: nat, action: Action<K, V>)
    requires Accounted(s) && t < |s.threads| && s.threads[t].Idle?
    ensures Accounted(Apply(s, t, action))
  {
    match action
    case BeginInsert(k, v) => AdditionKeepsAccount(s, t, Counted(k, v));
    case Remove(k) =>
      if k in s.entries { TakingKeepsAccount(s, t, k); }
    case RemoveIf(k, _) =>
      if k in s.entries { TakingKeepsAccount(s, t, k); }
    case BeginRetain => BeginningKeepsAccount(s, t);
    case _ =>
  }

  /** Every atomic step of every operation keeps the account. */
  lemma StepKeepsAccount<K, V>(s: Shared<K, V>, t: nat, action: Action<K, V>)
    requires Accounted(s)
    ensures Accounted(Apply(s, t, action))
    ensures |Apply(s, t, action).threads| == |s.threads|
  {
    if t < |s.threads| {
      match (s.threads[t], action)
      case (Idle, _) => StartingKeepsAccount(s, t, action);
      case (Counted(k, v), LandInsert) => LandingKeepsAccount(s, t, k, v);
      case (Owing, Settle) => SubtractionKeepsAccount(s, t, 1);
      case (Retaining(_), Visit(k, keep, v)) => VisitKeepsAccount(s, t, k, keep, v);
      case (Retaining(removed), EndRetain) => SubtractionKeepsAccount(s, t, removed);
      case _ =>
    }
  }

  lemma {:induction false} RunKeepsAccount<K, V>(entries: map<K, V>, n: nat, events: seq<Event<K, V>>)
    ensures Accounted(Run(Start(entries, n), events))
    ensures |Run(Start(entries, n), events).threads| == n
  {
    if events == [] {
      CreditsOfIdle(Start(entries, n).threads);
    } else {
      var last := events[|events| - 1];
      RunKeepsAccount(entries, n, events[..|events| - 1]);
      StepKeepsAccount(Run(Start(entries, n), events[..|events| - 1]), last.thread, last.action);
    }
  }

  lemma SmallSumIsExact<K, V>(s: Shared<K, V>)
    requires Accounted(s) && |s.entries| + Credits(s.threads) < USIZE_MODULUS
    ensures s.len == |s.entries| + Credits(s.threads)
    ensures s.len == 0 ==> s.entries == map[]
  {
    if |s.entries| == 0 {
      assert s.entries.Keys == {};
    }
  }

  /** The documented guarantee, at every instant of every interleaving in which
      entries and credits together fit the counter: the count is never below the
      true size, an empty count means an empty map, no pending fetch_sub can
      underflow, and the count is exact once no operation is in flight. */
  lemma CountNeverBelowSize<K, V>(entries: map<K, V>, n: nat, events: seq<Event<K, V>>)
    requires var s := Run(Start(entries, n), events); |s.entries| + Credits(s.threads) < USIZE_MODULUS
    ensures var s := Run(Start(entries, n), events);
            && |s.threads| == n
            && s.len == |s.entries| + Credits(s.threads)
            && (s.len == 0 ==> s.entries == map[])
            && (forall t :: 0 <= t < n ==> Credit(s.threads[t]) <= s.len)
            && ((forall t :: 0 <= t < n ==> s.threads[t].Idle?) ==> s.len == |s.entries|)
  {
    RunKeepsAccount(entries, n, events);
    var s := Run(Start(entries, n), events);
    SmallSumIsExact(s);
    forall t | 0 <= t < n ensures Credit(s.threads[t]) <= s.len {
      CreditBelowCredits(s.threads, t);
    }
    if forall t :: 0 <= t < n ==> s.threads[t].Idle? {
      CreditsOfIdle(s.threads);
    }
  }

  // ----- what the steps leave in the map, in every interleaving

  function Entry<K, V>(entries: map<K, V>, k: K): Option<V> {
    if k in entries then Some(entries[k]) else None
  }

  /** What `e` leaves at key `k` when it lands there: a value or no entry. None when it does not. */
  function Touch<K, V>(s: Shared<K, V>, e: Event<K, V>, k: K): Option<Option<V>> {
    if e.thread >= |s.threads| then None else
    match (s.threads[e.thread], e.action)
    case (Counted(key, value), LandInsert) => if key == k then Some(Some(value)) else None
    case (Idle, Remove(key)) => if key == k then Some(None) else None
    case (Idle, RemoveIf(key, matches)) => if key == k && matches then Some(None) else None
    case (Retaining(_), Visit(key, keep, value)) =>
      if key != k || k !in s.entries then None else if keep then Some(Some(value)) else Some(None)
    case _ => None
  }

  /** What the last of these events to land at key `k` leaves there. */
  function LastTouch<K, V>(s: Shared<K, V>, events: seq<Event<K, V>>, k: K): Option<Option<V>> {
    if events == [] then None
    else
      var front, last := events[..|events| - 1], events[|events| - 1];
      var touch := Touch(Run(s, front), last, k);
      if touch.Some? then touch else LastTouch(s, front, k)
  }

  lemma StepTouches<K, V>(s: Shared<K, V>, e: Event<K, V>, k: K)
    ensures Entry(Apply(s, e.thread, e.action).entries, k) ==
            if Touch(s, e, k).Some? then Touch(s, e, k).value else Entry(s.entries, k)
  {
  }

  /** In every interleaving a key holds what the last insert, removal or visit to land on
      it left there, and what it held at the start if none has: no other step changes it. */
  lemma {:induction false} EntryIsLastTouch<K, V>(s: Shared<K, V>, events: seq<Event<K, V>>, k: K)
    ensures Entry(Run(s, events).entries, k) ==
            if LastTouch(s, events, k).Some? then LastTouch(s, events, k).value else Entry(s.entries, k)
  {
    if events != [] {
      var front, last := events[..|events| - 1], events[|events| - 1];
      EntryIsLastTouch(s, front, k);
      StepTouches(Run(s, front), last, k);
    }
  }

  ghost predicate NoneBy<K, V>(t: nat, events: seq<Event<K, V>>) {
    events == [] || (NoneBy(t, events[..|events| - 1]) && events[|events| - 1].thread != t)
  }

  lemma {:induction false} OthersLeaveThread<K, V>(s: Shared<K, V>, t: nat, events: seq<Event<K, V>>)
    requires t < |s.threads| && NoneBy(t, events)
    ensures |Run(s, events).threads| == |s.threads| && Run(s, events).threads[t] == s.threads[t]
  {
    if events != [] {
      OthersLeaveThread(s, t, events[..|events| - 1]);
    }
  }

  /** Whatever other threads do between an insert's fetch_add and its map write, the write
      stores the key and value the insert was called with, and changes no other entry. */
  lemma InsertLands<K, V>(s: Shared<K, V>, t: nat, k: K, v: V, others: seq<Event<K, V>>)
    requires t < |s.threads| && s.threads[t].Idle? && NoneBy(t, others)
    ensures var before := Run(Apply(s, t, BeginInsert(k, v)), others);
            Apply(before, t, LandInsert).entries == before.entries[k := v]
  {
    OthersLeaveThread(Apply(s, t, BeginInsert(k, v)), t, others);
  }

  // ----- one operation of an idle thread, undisturbed

  lemma RunOfOne<K, V>(s: Shared<K, V>, e: Event<K, V>)
    ensures Run(s, [e]) == Apply(s, e.thread, e.action)
  {
    assert [e][..0] == [];
  }

  lemma RunExtends<K, V>(s: Shared<K, V>, events: seq<Event<K, V>>, e: Event<K, V>)
    ensures Run(s, events + [e]) == Apply(Run(s, events), e.thread, e.action)
  {
    assert (events + [e])[..|events|] == events;
  }

  lemma RunOfTwo<K, V>(s: Shared<K, V>, t: nat, a: Action<K, V>, b: Action<K, V>)
    ensures Run(s, [Event(t, a), Event(t, b)]) == Apply(Apply(s, t, a), t, b)
  {
    RunOfOne(s, Event(t, a));
    RunExtends(s, [Event(t, a)], Event(t, b));
    assert [Event(t, a)] + [Event(t, b)] == [Event(t, a), Event(t, b)];
  }

  /** A removed entry's fetch_sub leaves the thread as it was before the removal. */
  lemma SettleFrom<K, V>(s: Shared<K, V>, t: nat, owing: Shared<K, V>)
    requires t < |s.threads| && s.threads[t].Idle? && owing.threads == s.threads[t := Owing]
    ensures Apply(owing, t, Settle) == Shared(FetchSub(owing.len, 1), owing.entries, s.threads)
  {
    assert owing.threads[t := Idle] == s.threads;
  }

  /** The counter adds and subtracts, and wraps where the result does not fit. */
  lemma CounterWraps(len: nat, n: nat)
    requires len < USIZE_MODULUS && n <= USIZE_MODULUS
    ensures FetchAdd(len, n) == if len + n < USIZE_MODULUS then len + n else len + n - USIZE_MODULUS
    ensures FetchSub(len, n) == if n <= len then len - n else len - n + USIZE_MODULUS
  {
  }

  /** The insert stores the entry; the count grows by one exactly when the key is new. */
  lemma InsertAlone<K, V>(s: Shared<K, V>, t: nat, k: K, v: V)
    requires t < |s.threads| && s.threads[t].Idle? && s.len < USIZE_MODULUS
    ensures Run(s, [Event(t, BeginInsert(k, v)), Event(t, LandInsert)] + [Event(t, Settle)]) ==
            Shared(if k in s.entries then s.len else FetchAdd(s.len, 1), s.entries[k := v], s.threads)
  {
    RunOfTwo(s, t, BeginInsert(k, v), LandInsert);
    RunExtends(s, [Event(t, BeginInsert(k, v)), Event(t, LandInsert)], Event(t, Settle));
    InsertStepsAlone(s, t, k, v);
  }

  lemma InsertStepsAlone<K, V>(s: Shared<K, V>, t: nat, k: K, v: V)
    requires t < |s.threads| && s.threads[t].Idle? && s.len < USIZE_MODULUS
    ensures Apply(Apply(Apply(s, t, BeginInsert(k, v)), t, LandInsert), t, Settle) ==
            Shared(if k in s.entries then s.len else FetchAdd(s.len, 1), s.entries[k := v], s.threads)
  {
    var counted := Apply(s, t, BeginInsert(k, v));
    var landed := Apply(counted, t, LandInsert);
    assert counted.threads[t] == Counted(k, v);
    if k in s.entries {
      assert landed.threads == s.threads[t := Owing];
      SettleFrom(s, t, landed);
      CounterWraps(s.len, 1);
      CounterWraps(FetchAdd(s.len, 1), 1);
    } else {
      assert landed.threads == s.threads;
    }
  }

  /** The removal drops the entry; the count shrinks by one exactly when there was one. */
  lemma RemoveAlone<K, V>(s: Shared<K, V>, t: nat, k: K)
    requires t < |s.threads| && s.threads[t].Idle?
    ensures Run(s, [Event(t, Remove(k)), Event(t, Settle)]) ==
            Shared(if k in s.entries then FetchSub(s.len, 1) else s.len, s.entries - {k}, s.threads)
  {
    RunOfTwo(s, t, Remove(k), Settle);
    if k in s.entries {
      SettleFrom(s, t, Apply(s, t, Remove(k)));
    } else {
      assert s.entries - {k} == s.entries;
    }
  }

  /** The entry goes, and the count shrinks by one, exactly when there is one and the
      closure accepts it. */
  lemma RemoveIfAlone<K, V>(s: Shared<K, V>, t: nat, k: K, f: (K, V) -> bool)
    requires t < |s.threads| && s.threads[t].Idle?
    ensures var accepted := k in s.entries && f(k, s.entries[k]);
            Run(s, [Event(t, RemoveIf(k, accepted)), Event(t, Settle)]) ==
            if accepted then Shared(FetchSub(s.len, 1), s.entries - {k}, s.threads) else s
  {
    var accepted := k in s.entries && f(k, s.entries[k]);
    RunOfTwo(s, t, RemoveIf(k, accepted), Settle);
    if accepted {
      SettleFrom(s, t, Apply(s, t, RemoveIf(k, accepted)));
    }
  }

  /** The closure's answer on the entry it is given: to keep it with a value, or to drop it. */
  function VisitOf<K, V>(t: nat, k: K, v: V, answer: Option<V>): Event<K, V> {
    Event(t, Visit(k, answer.Some?, if answer.Some? then answer.value else v))
  }

  /** Keys of `entries`, none of them twice. */
  ghost predicate WalksOnce<K, V>(entries: map<K, V>, keys: seq<K>) {
    keys == [] ||
    (var front, k := keys[..|keys| - 1], keys[|keys| - 1];
     WalksOnce(entries, front) && k in entries && k !in front)
  }

  /** Retain's walk over `keys`, in the order the map chooses. */
  function Walk<K, V>(t: nat, entries: map<K, V>, keys: seq<K>, f: (K, V) -> Option<V>): seq<Event<K, V>>
    requires WalksOnce(entries, keys)
  {
    if keys == [] then [Event(t, BeginRetain)]
    else
      var k := keys[|keys| - 1];
      Walk(t, entries, keys[..|keys| - 1], f) + [VisitOf(t, k, entries[k], f(k, entries[k]))]
  }

  /** The entries once `f` has answered for each of `keys` in turn. */
  function Answered<K, V>(entries: map<K, V>, keys: seq<K>, f: (K, V) -> Option<V>): map<K, V> {
    if keys == [] then entries
    else
      var rest, k := Answered(entries, keys[..|keys| - 1], f), keys[|keys| - 1];
      if k !in entries then rest
      else
        var answer := f(k, entries[k]);
        if answer.Some? then rest[k := answer.value] else rest - {k}
  }

  lemma {:induction false} AnsweredExactly<K, V>(entries: map<K, V>, keys: seq<K>, f: (K, V) -> Option<V>, k: K)
    ensures Entry(Answered(entries, keys, f), k) ==
            if k in keys && k in entries then f(k, entries[k]) else Entry(entries, k)
    decreases |keys|
  {
    if keys != [] {
      AnsweredExactly(entries, keys[..|keys| - 1], f, k);
      assert keys == keys[..|keys| - 1] + [keys[|keys| - 1]];
    }
  }

  function Dropped<K, V>(entries: map<K, V>, keys: seq<K>, f: (K, V) -> Option<V>): nat {
    if keys == [] then 0
    else
      var k := keys[|keys| - 1];
      Dropped(entries, keys[..|keys| - 1], f) + if k in entries && f(k, entries[k]).None? then 1 else 0
  }

  lemma {:induction false} DroppedAreGone<K, V>(entries: map<K, V>, keys: seq<K>, f: (K, V) -> Option<V>)
    requires WalksOnce(entries, keys)
    ensures |Answered(entries, keys, f)| + Dropped(entries, keys, f) == |entries|
    decreases |keys|
  {
    if keys != [] {
      var front, k := keys[..|keys| - 1], keys[|keys| - 1];
      var rest := Answered(entries, front, f);
      DroppedAreGone(entries, front, f);
      AnsweredExactly(entries, front, f, k);
      if f(k, entries[k]).Some? {
        InsertionGrows(rest, k, f(k, entries[k]).value);
      } else {
        RemovalShrinks(rest, k);
      }
    }
  }

  lemma VisitStep<K, V>(s: Shared<K, V>, t: nat, removed: nat, k: K, v: V, answer: Option<V>)
    requires t < |s.threads| && k in s.entries && s.threads[t] == Retaining(removed)
    ensures Apply(s, t, VisitOf(t, k, v, answer).action) ==
            Shared(s.len, if answer.Some? then s.entries[k := answer.value] else s.entries - {k},
                   s.threads[t := Retaining(removed + if answer.Some? then 0 else 1)])
  {
    assert s.threads[t := Retaining(removed)] == s.threads;
  }

  lemma {:induction false} WalkAlone<K, V>(s: Shared<K, V>, t: nat, keys: seq<K>, f: (K, V) -> Option<V>)
    requires t < |s.threads| && s.threads[t].Idle? && WalksOnce(s.entries, keys)
    ensures Run(s, Walk(t, s.entries, keys, f)) ==
            Shared(s.len, Answered(s.entries, keys, f), s.threads[t := Retaining(Dropped(s.entries, keys, f))])
    decreases |keys|
  {
    if keys == [] {
      RunOfOne(s, Event(t, BeginRetain));
    } else {
      var front, k := keys[..|keys| - 1], keys[|keys| - 1];
      WalkAlone(s, t, front, f);
      AnsweredExactly(s.entries, front, f, k);
      var walked := Run(s, Walk(t, s.entries, front, f));
      RunExtends(s, Walk(t, s.entries, front, f), VisitOf(t, k, s.entries[k], f(k, s.entries[k])));
      VisitStep(walked, t, Dropped(s.entries, front, f), k, s.entries[k], f(k, s.entries[k]));
      assert walked.threads[t := Retaining(Dropped(s.entries, keys, f))]
          == s.threads[t := Retaining(Dropped(s.entries, keys, f))];
    }
  }

  lemma EndStep<K, V>(s: Shared<K, V>, t: nat, removed: nat, threads: seq<Thread<K, V>>)
    requires t < |threads| && threads[t].Idle? && s.threads == threads[t := Retaining(removed)]
    ensures Apply(s, t, EndRetain) == Shared(FetchSub(s.len, removed), s.entries, threads)
  {
    assert s.threads[t := Idle] == threads;
  }

  /** Retain leaves the entries its closure accepts, with the values the closure left, in
      whatever order it walks them, and takes the number of the others off the count. */
  lemma RetainAlone<K(!new), V>(s: Shared<K, V>, t: nat, keys: seq<K>, f: (K, V) -> Option<V>)
    requires t < |s.threads| && s.threads[t].Idle?
    requires WalksOnce(s.entries, keys) && (forall k :: k in s.entries ==> k in keys)
    ensures var s' := Run(s, Walk(t, s.entries, keys, f) + [Event(t, EndRetain)]);
            && (forall k :: Entry(s'.entries, k) == if k in s.entries then f(k, s.entries[k]) else None)
            && |s'.entries| <= |s.entries| && s'.len == FetchSub(s.len, |s.entries| - |s'.entries|)
            && s'.threads == s.threads
  {
    var kept, dropped := Answered(s.entries, keys, f), Dropped(s.entries, keys, f);
    WalkAlone(s, t, keys, f);
    RunExtends(s, Walk(t, s.entries, keys, f), Event(t, EndRetain));
    EndStep(Run(s, Walk(t, s.entries, keys, f)), t, dropped, s.threads);
    DroppedAreGone(s.entries, keys, f);
    forall k ensures Entry(kept, k) == if k in s.entries then f(k, s.entries[k]) else None {
      AnsweredExactly(s.entries, keys, f, k);
    }
  }
}

/** CountedDashMap used by one thread at a time: its operations, and the
    bounded eviction that makes room for an insert. */
module CountedMap {
  import opened Options

  class CountedMap<K(==), V> {
    var len: nat
    var entries: map<K, V>

    ghost predicate Valid()
      reads this
    {
      len == |entries|
    }

    constructor FromMap(entries: map<K, V>)
      ensures Valid() && this.entries == entries
    {
      this.len := |entries|;
      this.entries := entries;
    }

    method Insert(key: K, value: V) returns (previous: Option<V>)
      requires Valid()
      modifies this
      ensures Valid() && entries == old(entries)[key := value]
      ensures previous == if key in old(entries) then Some(old(entries)[key]) else None
    {
      len := len + 1;
      previous := if key in entries then Some(entries[key]) else None;
      assert entries[key := value].Keys == entries.Keys + {key};
      entries := entries[key := value];
      if previous.Some? {
        len := len - 1;
      }
    }

    method RemoveIf(key: K, f: (K, V) -> bool) returns (removed: Option<V>)
      requires Valid()
      modifies this
      ensures Valid()
      ensures removed == if key in old(entries) && f(key, old(entries)[key]) then Some(old(entries)[key]) else None
      ensures entries == if removed.Some? then old(entries) - {key} else old(entries)
    {
      removed := None;
      if key in entries && f(key, entries[key]) {
        removed := Some(entries[key]);
        assert (entries - {key}).Keys == entries.Keys - {key};
        entries := entries - {key};
      }
      if removed.Some? {
        len := len - 1;
      }
    }

    method Remove(key: K) returns (removed: Option<V>)
      requires Valid()
      modifies this
      ensures Valid() && entries == old(entries) - {key}
      ensures removed == if key in old(entries) then Some(old(entries)[key]) else None
    {
      removed := RemoveIf(key, (_, _) => true);
      assert key !in old(entries) ==> old(entries) - {key} == old(entries);
    }

    /** `f` sees every entry once: it drops the entry, or keeps it with the value it leaves there. */
    method Retain(f: (K, V) -> Option<V>) returns (removed: nat)
      requires Valid()
      modifies this
      ensures Valid()
      ensures entries == map k | k in old(entries) && f(k, old(entries)[k]).Some? :: f(k, old(entries)[k]).value
      ensures removed == |old(entries)| - |entries|
    {
      removed := 0;
      var before, unseen := entries, entries.Keys;
      while unseen != {}
        invariant unseen <= before.Keys && len == |before|
        invariant entries == map k | k in before && (k in unseen || f(k, before[k]).Some?)
                                   :: if k in unseen then before[k] else f(k, before[k]).value
        invariant |before| == |entries| + removed
      {
        var k :| k in unseen;
        unseen := unseen - {k};
        var kept := f(k, entries[k]);
        assert (entries - {k}).Keys == entries.Keys - {k};
        assert kept.Some? ==> entries[k := kept.value].Keys == entries.Keys;
        entries := if kept.Some? then entries[k := kept.value] else entries - {k};
        removed := removed + if kept.Some? then 0 else 1;
      }
      len := len - removed;
    }

    method Clear()
      requires Valid()
      modifies this
      ensures Valid() && entries == map[] && len == 0
    {
      var _ := Retain((_, _) => None);
    }

    /** Walks up to `batch` entries in an order the map chooses, drops the expired
        ones among them, then one arbitrary entry if the map is still full. Returns
        the entries it inspected and the ones it dropped. */
    method EvictIfFull(batch: nat, max: nat, isExpired: V -> bool) returns (sample: seq<K>, evicted: set<K>)
      requires Valid()
      modifies this
      ensures Valid() && entries == old(entries) - evicted
      ensures Evicts(old(entries), batch, max, isExpired, sample, evicted)
    {
      sample, evicted := [], {};
      if len < max {
        assert entries - {} == entries;
        return;
      }
      sample := Walk(batch);
      evicted := RemoveExpired(isExpired, sample);
      EvictedSize(old(entries), evicted);
      if len >= max && entries != map[] {
        var fallback :| fallback in entries;
        var _ := Remove(fallback);
        FallbackEvicts(old(entries), batch, max, isExpired, sample, fallback);
        evicted := evicted + {fallback};
      } else {
        assert evicted - evicted == {};
      }
    }

    method RemoveExpired(isExpired: V -> bool, sample: seq<K>) returns (expired: set<K>)
      requires Valid() && IsSample(entries, |sample|, sample)
      modifies this
      ensures Valid() && expired == Expired(old(entries), isExpired, sample)
      ensures entries == old(entries) - expired
    {
      expired := {};
      ghost var before := entries;
      for i := 0 to |sample|
        invariant Valid() && expired == Expired(before, isExpired, sample[..i])
        invariant entries == before - expired
      {
        ExpiredExtends(before, isExpired, sample, i);
        if isExpired(entries[sample[i]]) {
          var _ := Remove(sample[i]);
          RemovalsCompose(before, expired, sample[i]);
          expired := expired + {sample[i]};
        }
      }
      assert sample[..|sample|] == sample;
    }

    /** The first `batch` entries of an iteration, or all of them when there are fewer. */
    method Walk(batch: nat) returns (sample: seq<K>)
      ensures IsSample(entries, batch, sample)
    {
      sample := [];
      var rest := entries.Keys;
      while rest != {} && |sample| < batch
        invariant rest <= entries.Keys && |sample| + |rest| == |entries| && |sample| <= batch
        invariant forall k :: k in sample ==> k in entries && k !in rest
        invariant forall i, j :: 0 <= i < j < |sample| ==> sample[i] != sample[j]
      {
        var k :| k in rest;
        rest := rest - {k};
        sample := sample + [k];
      }
    }
  }

  lemma EvictedSize<K, V>(entries: map<K, V>, evicted: set<K>)
    requires evicted <= entries.Keys
    ensures |entries - evicted| == |entries| - |evicted|
    ensures entries - evicted == map[] <==> evicted == entries.Keys
  {
    assert (entries - evicted).Keys == entries.Keys - evicted;
    SubsetSize(evicted, entries.Keys);
  }

  lemma SubsetSize<T>(a: set<T>, b: set<T>)
    requires a <= b
    ensures |b - a| == |b| - |a|
  {
    assert b == a + (b - a);
  }

  predicate IsSample<K, V>(entries: map<K, V>, batch: nat, sample: seq<K>) {
    && |sample| == (if batch < |entries| then batch else |entries|)
    && (forall k :: k in sample ==> k in entries)
    && (forall i, j :: 0 <= i < j < |sample| ==> sample[i] != sample[j])
  }

  ghost function Expired<K, V>(entries: map<K, V>, isExpired: V -> bool, sample: seq<K>): set<K>
    requires forall k :: k in sample ==> k in entries
  {
    set k | k in sample && isExpired(entries[k])
  }

  /** What one call may do: nothing below `max`; otherwise the sampled expired
      entries go, and exactly one more when that left the map full. */
  ghost predicate Evicts<K, V>(
    before: map<K, V>, batch: nat, max: nat, isExpired: V -> bool, sample: seq<K>, evicted: set<K>)
  {
    if |before| < max then sample == [] && evicted == {}
    else
      && IsSample(before, batch, sample)
      && var expired := Expired(before, isExpired, sample);
      && expired <= evicted <= before.Keys
      && |evicted - expired| == if |before| - |expired| >= max && expired != before.Keys then 1 else 0
  }

  lemma ExpiredExtends<K, V>(before: map<K, V>, isExpired: V -> bool, sample: seq<K>, i: nat)
    requires IsSample(before, |sample|, sample) && i < |sample|
    ensures sample[i] !in Expired(before, isExpired, sample[..i])
    ensures Expired(before, isExpired, sample[..i + 1]) ==
            Expired(before, isExpired, sample[..i]) + if isExpired(before[sample[i]]) then {sample[i]} else {}
  {
    assert sample[..i + 1] == sample[..i] + [sample[i]];
  }

  lemma RemovalsCompose<K, V>(before: map<K, V>, gone: set<K>, k: K)
    ensures (before - gone) - {k} == before - (gone + {k})
  {
  }

  lemma FallbackEvicts<K, V>(before: map<K, V>, batch: nat, max: nat, isExpired: V -> bool, sample: seq<K>, k: K)
    requires IsSample(before, batch, sample) && |before| >= max
    requires k in before && k !in Expired(before, isExpired, sample)
    requires |before| - |Expired(before, isExpired, sample)| >= max
    ensures Evicts(before, batch, max, isExpired, sample, Expired(before, isExpired, sample) + {k})
    ensures before - Expired(before, isExpired, sample) - {k} == before - (Expired(before, isExpired, sample) + {k})
  {
    var expired := Expired(before, isExpired, sample);
    RemovalsCompose(before, expired, k);
    assert (expired + {k}) - expired == {k};
  }

  lemma ExpiredWithinSample<K, V>(before: map<K, V>, isExpired: V -> bool, sample: seq<K>)
    requires forall k :: k in sample ==> k in before
    ensures |Expired(before, isExpired, sample)| <= |sample|
  {
    var all := set k | k in sample;
    SubsetSize(Expired(before, isExpired, sample), all);
    SeqSetSize(sample);
  }

  lemma {:induction false} SeqSetSize<T>(s: seq<T>)
    ensures |set x | x in s| <= |s|
  {
    if s != [] {
      SeqSetSize(s[1..]);
      assert (set x | x in s) == (set x | x in s[1..]) + {s[0]};
    }
  }

  /** From at most `max` entries an eviction always leaves room for one insert;
      its work is bounded by `batch`; and a live entry goes only when the map was
      full and the sample held no expired entry, and then goes alone. */
  lemma EvictionMakesRoom<K, V>(
    before: map<K, V>, batch: nat, max: Capacity, isExpired: V -> bool, sample: seq<K>, evicted: set<K>)
    requires Evicts(before, batch, max, isExpired, sample, evicted)
    requires |before| <= max
    ensures |before - evicted| < max
    ensures |sample| <= batch && |evicted| <= batch + 1
    ensures forall k :: k in evicted && !isExpired(before[k]) ==>
                          |before| == max && Expired(before, isExpired, sample) == {} && evicted == {k}
  {
    if |before| == max {
      var expired := Expired(before, isExpired, sample);
      ExpiredWithinSample(before, isExpired, sample);
      SubsetSize(expired, evicted);
      SubsetSize(evicted, before.Keys);
      assert (before - evicted).Keys == before.Keys - evicted;
      forall k | k in evicted && !isExpired(before[k])
        ensures expired == {} && evicted == {k}
      {
        assert {k} <= evicted - expired;
        SubsetSize({k}, evicted - expired);
      }
    }
  }

  /** The bound a cache passes: a constant, or a setting the configuration refuses to have at zero. */
  type Capacity = n: nat | n >= 1 witness 1

  /** One insert as the caches make it: evict, then insert. */
  datatype InsertStep<K, !V> = InsertStep(isExpired: V -> bool, sample: seq<K>, evicted: set<K>, key: K, value: V)

  /** The map after a run of steps, latest first in the recursion. */
  ghost function After<K, V>(entries: map<K, V>, steps: seq<InsertStep<K, V>>): map<K, V> {
    if steps == [] then entries
    else
      var step := steps[|steps| - 1];
      (After(entries, steps[..|steps| - 1]) - step.evicted)[step.key := step.value]
  }

  ghost predicate IsRun<K, V>(entries: map<K, V>, batch: nat, max: nat, steps: seq<InsertStep<K, V>>) {
    steps == [] ||
    var step, earlier := steps[|steps| - 1], steps[..|steps| - 1];
    && IsRun(entries, batch, max, earlier)
    && Evicts(After(entries, earlier), batch, max, step.isExpired, step.sample, step.evicted)
  }

  lemma {:induction false} RunStaysBounded<K, V>(
    entries: map<K, V>, batch: nat, max: Capacity, steps: seq<InsertStep<K, V>>)
    requires IsRun(entries, batch, max, steps)
    requires |entries| <= max
    ensures |After(entries, steps)| <= max
    decreases |steps|
  {
    if steps != [] {
      var earlier := steps[..|steps| - 1];
      RunStaysBounded(entries, batch, max, earlier);
      StepStaysBounded(After(entries, earlier), batch, max, steps[|steps| - 1]);
    }
  }

  lemma StepStaysBounded<K, V>(before: map<K, V>, batch: nat, max: Capacity, step: InsertStep<K, V>)
    requires Evicts(before, batch, max, step.isExpired, step.sample, step.evicted)
    requires |before| <= max
    ensures |(before - step.evicted)[step.key := step.value]| <= max
  {
    EvictionMakesRoom(before, batch, max, step.isExpired, step.sample, step.evicted);
    var after := before - step.evicted;
    assert after[step.key := step.value].Keys == after.Keys + {step.key};
  }

  /** `max >= 1` is exactly what the bound needs: at zero, the first insert into
      an empty map is a run that exceeds it. */
  lemma ZeroBoundBreaks<K, V>(batch: nat, step: InsertStep<K, V>)
    requires step.sample == [] && step.evicted == {}
    ensures IsRun(map[], batch, 0, [step]) && |After(map[], [step])| == 1
  {
    var empty: map<K, V> := map[];
    assert [step][..0] == [];
    FirstInsert(empty, batch, step);
  }

  lemma FirstInsert<K, V>(empty: map<K, V>, batch: nat, step: InsertStep<K, V>)
    requires empty == map[] && step.sample == [] && step.evicted == {}
    ensures Evicts(empty, batch, 0, step.isExpired, step.sample, step.evicted)
    ensures |(empty - step.evicted)[step.key := step.value]| == 1
  {
    assert Expired(empty, step.isExpired, []) == {};
    assert (empty - step.evicted)[step.key := step.value].Keys == {step.key};
  }
}
