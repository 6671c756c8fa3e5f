/** The schedule evaluator job: each pass reloads which groups have a schedule
    and writes the override each schedule calls for into the shared store. */
module Schedule {
  import opened Options

  datatype Action = BlockAll | AllowAll

  datatype Override = Always(action: Action) | TimedBypassUntil(until: nat) | TimedBlockUntil(until: nat)

  /** `days` holds one bit per weekday, Monday lowest; times are `[start, end)`. */
  datatype Slot = Slot(days: bv8, start: nat, end: nat, action: Action)

  type Weekday = d: nat | d < 7

  predicate Covers(slot: Slot, weekday: Weekday, time: nat) {
    slot.days & ((1 as bv8) << weekday) != 0 && slot.start <= time < slot.end
  }

  predicate Calls(slots: seq<Slot>, weekday: Weekday, time: nat, action: Action) {
    exists i :: 0 <= i < |slots| && Covers(slots[i], weekday, time) && slots[i].action == action
  }

  /** Blocking wins over allowing, in whatever order the slots come. */
  function Verdict(slots: seq<Slot>, weekday: Weekday, time: nat): Option<Action> {
    if Calls(slots, weekday, time, BlockAll) then Some(BlockAll)
    else if Calls(slots, weekday, time, AllowAll) then Some(AllowAll)
    else None
  }

  method EvaluateSlots(slots: seq<Slot>, weekday: Weekday, time: nat) returns (verdict: Option<Action>)
    ensures verdict == Verdict(slots, weekday, time)
    ensures verdict == Some(BlockAll) <==>
            exists i :: 0 <= i < |slots| && slots[i].action == BlockAll && slots[i].start <= time < slots[i].end
                        && slots[i].days & ((1 as bv8) << weekday) != 0
    ensures verdict == Some(AllowAll) <==>
            && verdict != Some(BlockAll)
            && exists i :: 0 <= i < |slots| && slots[i].action == AllowAll && slots[i].start <= time < slots[i].end
                           && slots[i].days & ((1 as bv8) << weekday) != 0
  {
    var foundAllow := false;
    for i := 0 to |slots|
      invariant forall j :: 0 <= j < i && Covers(slots[j], weekday, time) ==> slots[j].action == AllowAll
      invariant foundAllow <==> exists j :: 0 <= j < i && Covers(slots[j], weekday, time)
    {
      var slot := slots[i];
      if slot.days & ((1 as bv8) << weekday) == 0 {
        continue;
      }
      if time < slot.start || time >= slot.end {
        continue;
      }
      assert Covers(slots[i], weekday, time);
      match slot.action
      case BlockAll => return Some(BlockAll);
      case AllowAll => foundAllow := true;
    }
    verdict := if foundAllow then Some(AllowAll) else None;
  }

  /** What the repository answers for one assignment, and the wall clock of its profile. */
  datatype Load =
    | ProfileFailed
    | ProfileMissing
    | SlotsFailed
    | Loaded(slots: seq<Slot>, weekday: Weekday, time: nat)

  datatype Assignment = Assignment(group: int, profile: int)

  function Groups(assignments: seq<Assignment>): set<int> {
    set i | 0 <= i < |assignments| :: assignments[i].group
  }

  class ScheduleStateStore {
    var overrides: map<int, Override>

    constructor ()
      ensures overrides == map[]
    {
      overrides := map[];
    }

    method Set(group: int, state: Override)
      modifies this
      ensures overrides == old(overrides)[group := state]
    {
      overrides := overrides[group := state];
    }

    method Clear(group: int)
      modifies this
      ensures overrides == old(overrides) - {group}
    {
      overrides := overrides - {group};
    }

    method SweepExpired(now: nat)
      modifies this
      ensures overrides == Swept(old(overrides), now)
    {
      overrides := map g | g in overrides && !Expired(overrides[g], now) :: overrides[g];
    }
  }

  predicate Expired(o: Override, now: nat) {
    !o.Always? && now >= o.until
  }

  function Swept(overrides: map<int, Override>, now: nat): map<int, Override> {
    map g | g in overrides && !Expired(overrides[g], now) :: overrides[g]
  }

  /** What one load does to its group: nothing, a clear, or a write. */
  datatype Effect = Leave | Write(state: Option<Override>)

  function EffectOf(load: Load): Effect {
    match load
    case ProfileFailed | SlotsFailed => Leave
    case ProfileMissing => Write(None)
    case Loaded(slots, weekday, time) =>
      match Verdict(slots, weekday, time)
      case None => Write(None)
      case Some(action) => Write(Some(Always(action)))
  }

  function WithEffect(overrides: map<int, Override>, group: int, effect: Effect): map<int, Override> {
    match effect
    case Leave => overrides
    case Write(None) => overrides - {group}
    case Write(Some(state)) => overrides[group := state]
  }

  /** The overrides after the first `n` assignments of a pass. */
  function Evaluated(
    overrides: map<int, Override>, assignments: seq<Assignment>, loads: seq<Load>, n: nat): map<int, Override>
    requires n <= |assignments| == |loads|
  {
    if n == 0 then overrides
    else WithEffect(Evaluated(overrides, assignments, loads, n - 1), assignments[n - 1].group, EffectOf(loads[n - 1]))
  }

  datatype Job = Job(active: set<int>, overrides: map<int, Override>)

  /** One pass, given the outcome of each repository call: `assignments` is None when loading them failed. */
  datatype Tick = Tick(now: nat, assignments: Option<seq<Assignment>>, loads: seq<Load>)

  predicate Matched(tick: Tick) {
    tick.assignments.Some? ==> |tick.assignments.value| == |tick.loads|
  }

  function Cleared(job: Job, tick: Tick): map<int, Override>
    requires tick.assignments.Some?
  {
    Swept(job.overrides, tick.now) - (job.active - Groups(tick.assignments.value))
  }

  function Passed(job: Job, tick: Tick): Job
    requires Matched(tick)
  {
    match tick.assignments
    case None => job.(overrides := Swept(job.overrides, tick.now))
    case Some(assignments) =>
      Job(Groups(assignments), Evaluated(Cleared(job, tick), assignments, tick.loads, |assignments|))
  }

  /** What a pass at `now` finds for group `g`: an override that has run out counts for nothing. */
  function Found(overrides: map<int, Override>, now: nat, g: int): Option<Override> {
    if g in overrides && (overrides[g].Always? || now < overrides[g].until) then Some(overrides[g]) else None
  }

  function Lookup(overrides: map<int, Override>, g: int): Option<Override> {
    if g in overrides then Some(overrides[g]) else None
  }

  /** A repository failure leaves the group's override, a missing profile leaves it none, and
      loaded slots leave what they call for now: blocking if some slot blocks, else allowing
      if some slot allows, else nothing. */
  ghost predicate LoadSettles(load: Load, before: Option<Override>, after: Option<Override>) {
    match load
    case ProfileFailed => after == before
    case ProfileMissing => after == None
    case SlotsFailed => after == before
    case Loaded(slots, weekday, time) =>
      && (after == Some(Always(BlockAll)) <==>
            exists i :: 0 <= i < |slots| && slots[i].action == BlockAll && slots[i].start <= time < slots[i].end
                        && slots[i].days & ((1 as bv8) << weekday) != 0)
      && (after == Some(Always(AllowAll)) <==>
            && after != Some(Always(BlockAll))
            && exists i :: 0 <= i < |slots| && slots[i].action == AllowAll && slots[i].start <= time < slots[i].end
                           && slots[i].days & ((1 as bv8) << weekday) != 0)
      && after in [None, Some(Always(BlockAll)), Some(Always(AllowAll))]
  }

  /** What a pass from `before` to `after` does to group `g`: its own load settles it; a group
      whose assignment is gone is cleared; a group the job never wrote for is only swept. */
  ghost predicate GroupSettled(before: Job, after: Job, tick: Tick, g: int)
    requires Matched(tick)
  {
    var (found, left) := (Found(before.overrides, tick.now, g), Lookup(after.overrides, g));
    match tick.assignments
    case None => left == found && (g in after.active <==> g in before.active)
    case Some(assignments) =>
      && (forall i :: 0 <= i < |assignments| && assignments[i].group == g ==>
            g in after.active && LoadSettles(tick.loads[i], found, left))
      && ((forall i :: 0 <= i < |assignments| ==> assignments[i].group != g) ==>
            g !in after.active && left == if g in before.active then None else found)
  }

  class ScheduleEvaluatorJob {
    const state: ScheduleStateStore
    var activeGroups: set<int>

    ghost function View(): Job
      reads this, state
    {
      Job(activeGroups, state.overrides)
    }

    constructor (state: ScheduleStateStore)
      ensures this.state == state && activeGroups == {}
    {
      this.state := state;
      activeGroups := {};
    }

    method EvaluateOnce(tick: Tick)
      requires Matched(tick)
      modifies this, state
      ensures View() == Passed(old(View()), tick)
      ensures (tick.assignments.Some? ==> DistinctGroups(tick.assignments.value)) ==>
                forall g :: GroupSettled(old(View()), View(), tick, g)
    {
      ghost var before := View();
      state.SweepExpired(tick.now);
      if tick.assignments.None? {
        SettlesAllGroups(before, tick);
        return;
      }
      var assignments := tick.assignments.value;
      var current := set i | 0 <= i < |assignments| :: assignments[i].group;
      ClearStale(activeGroups - current);
      activeGroups := current;
      ghost var cleared := state.overrides;
      for i := 0 to |assignments|
        invariant state.overrides == Evaluated(cleared, assignments, tick.loads, i)
        invariant activeGroups == current
      {
        var group := assignments[i].group;
        match tick.loads[i]
        case ProfileFailed =>
        case ProfileMissing =>
          state.Clear(group);
        case SlotsFailed =>
        case Loaded(slots, weekday, time) =>
          var verdict := EvaluateSlots(slots, weekday, time);
          match verdict
          case Some(action) => state.Set(group, Always(action));
          case None => state.Clear(group);
      }
      if DistinctGroups(assignments) {
        SettlesAllGroups(before, tick);
      }
    }

    method ClearStale(stale: set<int>)
      modifies state
      ensures state.overrides == old(state.overrides) - stale
    {
      var rest := stale;
      while rest != {}
        invariant rest <= stale && state.overrides == old(state.overrides) - (stale - rest)
      {
        HasMember(rest);
        var id :| id in rest;
        rest := rest - {id};
        state.Clear(id);
      }
    }
  }

  lemma HasMember(groups: set<int>)
    ensures groups == {} || exists g :: g in groups
  {
    if forall g :: g !in groups {
      assert groups == {};
    }
  }

  /** The effect that decides group `g` among the first `n` loads: its latest that is not a failure. */
  function Deciding(assignments: seq<Assignment>, loads: seq<Load>, n: nat, g: int): Effect
    requires n <= |assignments| == |loads|
  {
    if n == 0 then Leave
    else if assignments[n - 1].group == g && EffectOf(loads[n - 1]).Write? then EffectOf(loads[n - 1])
    else Deciding(assignments, loads, n - 1, g)
  }

  function Decided(effect: Effect, before: Option<Override>): Option<Override> {
    match effect case Leave => before case Write(state) => state
  }

  lemma {:induction false} EvaluatedDecides(
    overrides: map<int, Override>, assignments: seq<Assignment>, loads: seq<Load>, n: nat, g: int)
    requires n <= |assignments| == |loads|
    ensures Lookup(Evaluated(overrides, assignments, loads, n), g) ==
            Decided(Deciding(assignments, loads, n, g), Lookup(overrides, g))
  {
    if n > 0 {
      EvaluatedDecides(overrides, assignments, loads, n - 1, g);
    }
  }

  lemma {:induction false} UnassignedIsLeft(assignments: seq<Assignment>, loads: seq<Load>, n: nat, g: int)
    requires n <= |assignments| == |loads|
    requires forall i :: 0 <= i < n ==> assignments[i].group != g
    ensures Deciding(assignments, loads, n, g) == Leave
  {
    if n > 0 {
      UnassignedIsLeft(assignments, loads, n - 1, g);
    }
  }

  lemma {:induction false} OnlyLoadDecides(assignments: seq<Assignment>, loads: seq<Load>, n: nat, i: nat)
    requires i < n <= |assignments| == |loads|
    requires forall j :: 0 <= j < n && j != i ==> assignments[j].group != assignments[i].group
    ensures Deciding(assignments, loads, n, assignments[i].group) == EffectOf(loads[i])
  {
    if i == n - 1 {
      UnassignedIsLeft(assignments, loads, n - 1, assignments[i].group);
    } else {
      OnlyLoadDecides(assignments, loads, n - 1, i);
    }
  }

  predicate DistinctGroups(assignments: seq<Assignment>) {
    forall i, j :: 0 <= i < j < |assignments| ==> assignments[i].group != assignments[j].group
  }

  lemma EffectSettles(load: Load, before: Option<Override>)
    ensures LoadSettles(load, before, Decided(EffectOf(load), before))
  {
  }

  lemma SweptIsFound(overrides: map<int, Override>, now: nat, g: int)
    ensures Lookup(Swept(overrides, now), g) == Found(overrides, now, g)
  {
  }

  /** Every pass settles every group, when each group is assigned once: by the slots that
      loaded for it, or as it found it when a repository call failed. */
  lemma PassSettlesEveryGroup(job: Job, tick: Tick, g: int)
    requires Matched(tick)
    requires tick.assignments.Some? ==> DistinctGroups(tick.assignments.value)
    ensures GroupSettled(job, Passed(job, tick), tick, g)
  {
    SweptIsFound(job.overrides, tick.now, g);
    if tick.assignments.Some? {
      var assignments := tick.assignments.value;
      EvaluatedDecides(Cleared(job, tick), assignments, tick.loads, |assignments|, g);
      if i :| 0 <= i < |assignments| && assignments[i].group == g {
        OnlyLoadDecides(assignments, tick.loads, |assignments|, i);
        EffectSettles(tick.loads[i], Found(job.overrides, tick.now, g));
        assert g in Groups(assignments);
      } else {
        UnassignedIsLeft(assignments, tick.loads, |assignments|, g);
      }
    }
  }

  lemma SettlesAllGroups(job: Job, tick: Tick)
    requires Matched(tick)
    requires tick.assignments.Some? ==> DistinctGroups(tick.assignments.value)
    ensures forall g :: GroupSettled(job, Passed(job, tick), tick, g)
  {
    forall g ensures GroupSettled(job, Passed(job, tick), tick, g) {
      PassSettlesEveryGroup(job, tick, g);
    }
  }

  /** Anything else that touches the store writes only timed overrides, or clears. */
  datatype Event = Evaluate(tick: Tick) | SetTimed(group: int, state: Override) | ClearGroup(group: int)

  predicate Possible(e: Event) {
    match e
    case Evaluate(tick) => Matched(tick)
    case SetTimed(_, state) => !state.Always?
    case ClearGroup(_) => true
  }

  predicate AllPossible(events: seq<Event>) {
    events == [] || (AllPossible(events[..|events| - 1]) && Possible(events[|events| - 1]))
  }

  function Happened(job: Job, e: Event): Job
    requires Possible(e)
  {
    match e
    case Evaluate(tick) => Passed(job, tick)
    case SetTimed(g, state) => job.(overrides := job.overrides[g := state])
    case ClearGroup(g) => job.(overrides := job.overrides - {g})
  }

  function Run(events: seq<Event>): Job
    requires AllPossible(events)
  {
    if events == [] then Job({}, map[])
    else Happened(Run(events[..|events| - 1]), events[|events| - 1])
  }

  /** The groups of the last pass whose assignments loaded. */
  function LastLoaded(events: seq<Event>): set<int> {
    if events == [] then {}
    else
      match events[|events| - 1]
      case Evaluate(Tick(_, Some(assignments), _)) => Groups(assignments)
      case _ => LastLoaded(events[..|events| - 1])
  }

  /** Every override the job wrote belongs to a group it still tracks. */
  ghost predicate OwnOverridesTracked(job: Job) {
    forall g :: g in job.overrides && job.overrides[g].Always? ==> g in job.active
  }

  lemma {:induction false} EvaluatedStaysTracked(job: Job, assignments: seq<Assignment>, loads: seq<Load>, n: nat)
    requires n <= |assignments| == |loads|
    requires OwnOverridesTracked(job) && job.active == Groups(assignments)
    ensures OwnOverridesTracked(job.(overrides := Evaluated(job.overrides, assignments, loads, n)))
  {
    if n > 0 {
      EvaluatedStaysTracked(job, assignments, loads, n - 1);
      assert assignments[n - 1].group in Groups(assignments);
    }
  }

  lemma EventStaysTracked(job: Job, e: Event)
    requires Possible(e) && OwnOverridesTracked(job)
    ensures OwnOverridesTracked(Happened(job, e))
  {
    if e.Evaluate? && e.tick.assignments.Some? {
      var assignments := e.tick.assignments.value;
      EvaluatedStaysTracked(Job(Groups(assignments), Cleared(job, e.tick)), assignments, e.tick.loads, |assignments|);
    }
  }

  /** Over every run, with any repository call failing at any pass and timed
      overrides coming and going: the job tracks exactly the groups of its last
      successful load, and no override it wrote outlives that tracking. */
  lemma {:induction false} NoOverrideIsOrphaned(events: seq<Event>)
    requires AllPossible(events)
    ensures OwnOverridesTracked(Run(events))
    ensures Run(events).active == LastLoaded(events)
  {
    if events != [] {
      NoOverrideIsOrphaned(events[..|events| - 1]);
      EventStaysTracked(Run(events[..|events| - 1]), events[|events| - 1]);
    }
  }
}
