/**
 The caching wrapper of the source: two caches, the calls that go through them, and the
 invalidations. The base file system's answers are parameters. What the methods do to the caches is
 what the steps of the coherence machine do.
 */
module CachedFS {
  import opened Wrappers
  import opened Paths
  import opened Tree
  import C = Cache
  import Coherence

  /** The entries that survive a list of invalidations. */
  function Kept(m: C.Entries<Answer>, query: Query, work: seq<Inval>): C.Entries<Answer> {
    map k | k in m && !CoversAny(work, Key(query, k)) :: m[k]
  }

  lemma KeptTwice(m: C.Entries<Answer>, query: Query, a: seq<Inval>, b: seq<Inval>)
    ensures Kept(Kept(m, query, a), query, b) == Kept(m, query, a + b)
  {
    forall k ensures CoversAny(a + b, Key(query, k)) <==> CoversAny(a, Key(query, k)) || CoversAny(b, Key(query, k)) {
      CoversAnyConcat(a, b, Key(query, k));
    }
  }

  /** The caches hold what the machine's cache holds. */
  ghost predicate Represents(cache: map<Key, Coherence.Entry>, stats: C.Entries<Answer>, lists: C.Entries<Answer>) {
    Holds(cache, Stat, stats) && Holds(cache, List, lists)
  }

  ghost predicate Holds(cache: map<Key, Coherence.Entry>, query: Query, m: C.Entries<Answer>) {
    forall n: string ::
      && (Key(query, n) in cache <==> n in m)
      && (n in m ==> cache[Key(query, n)].answer == m[n].value)
  }

  lemma KeptHolds(cache: map<Key, Coherence.Entry>, query: Query, m: C.Entries<Answer>, work: seq<Inval>)
    requires Holds(cache, query, m)
    ensures Holds(Coherence.Uncovered(cache, work), query, Kept(m, query, work))
  {
  }

  lemma StatKept(m: C.Entries<Answer>, p: string)
    ensures C.WithoutPrefix(m - {p}, p + "/") == Kept(m, Stat, InvalidatePath(p))
  {
    forall k { CoversAnyOfPath(p, Key(Stat, k)); }
  }

  lemma ListKept(m: C.Entries<Answer>, p: string)
    ensures C.WithoutPrefix(m - {p} - {Dir(p)}, p + "/") == Kept(m, List, InvalidatePath(p))
  {
    forall k { CoversAnyOfPath(p, Key(List, k)); }
  }

  function CacheOf(query: Query, stats: C.Entries<Answer>, lists: C.Entries<Answer>): C.Entries<Answer> {
    if query.Stat? then stats else lists
  }

  // ---------- The wrapper over a run ----------

  /** The limits of the two caches. */
  datatype Config = Config(statTTL: int, statMax: int, dirTTL: int, dirMax: int)

  function Limit(config: Config, query: Query): int {
    if query.Stat? then config.statMax else config.dirMax
  }

  function Lifetime(config: Config, query: Query): int {
    if query.Stat? then config.statTTL else config.dirTTL
  }

  /** The remote, the wrapper's caches, the invalidations owed since the last changes, the clock. */
  datatype World = World(tree: Tree, stats: C.Entries<Answer>, lists: C.Entries<Answer>, due: set<Inval>, clock: int)

  datatype Action =
    | Read(query: Query, p: Path, now: int, order: seq<string>)  // Stat or ReadDir, with the map's iteration order
    | Operate(op: Op)                                            // WriteFile, Mkdir, Delete or Rename
    | Change(op: Op)                                             // someone else's change of the remote
    | Deliver(changes: seq<string>)                              // applyChanges on a batch of events, due or not

  function Opened(t: Tree, now: int): World {
    World(t, map[], map[], {}, now)
  }

  predicate Possible(w: World, a: Action) {
    match a
    case Read(query, _, now, order) => now >= w.clock && C.Enumerates(order, CacheOf(query, w.stats, w.lists).Keys)
    case Change(op) => Apply(w.tree, op).Some?
    case _ => true
  }

  /** The cache and the answer after a read; the functions are those of the contracts of StatPath and ReadDirPath. */
  function Reading(config: Config, w: World, query: Query, p: Path, now: int, order: seq<string>)
      : (C.Entries<Answer>, Option<Answer>)
    requires C.Enumerates(order, CacheOf(query, w.stats, w.lists).Keys)
  {
    C.ReadCached(CacheOf(query, w.stats, w.lists), Limit(config, query), Lifetime(config, query), order, Render(p),
                 Ask(w.tree, query, p), now)
  }

  function Replaced(w: World, query: Query, m: C.Entries<Answer>): World {
    if query.Stat? then w.(stats := m) else w.(lists := m)
  }

  function Forgetting(w: World, work: seq<Inval>): World {
    World(w.tree, Kept(w.stats, Stat, work), Kept(w.lists, List, work), w.due - Coherence.Listed(work), w.clock)
  }

  function Changed(w: World, t: Tree, work: seq<Inval>): World {
    World(t, w.stats, w.lists, w.due + Coherence.Listed(work), w.clock)
  }

  function Perform(config: Config, w: World, a: Action): World
    requires Possible(w, a)
  {
    match a
    case Read(query, p, now, order) =>
      Replaced(w, query, Reading(config, w, query, p, now, order).0).(clock := now)
    case Operate(op) =>
      var t := Apply(w.tree, op);
      if t.None? then w else Forgetting(w.(tree := t.value), InvalidationsOf(op))
    case Change(op) => Changed(w, Apply(w.tree, op).value, InvalidationsOf(op))
    case Deliver(changes) => Forgetting(w, InvalidateEach(changes))
  }

  lemma EachSnoc(changes: seq<string>, i: nat)
    requires i < |changes|
    ensures InvalidateEach(changes[..i + 1]) == InvalidateEach(changes[..i]) + InvalidatePath(changes[i])
  {
    assert changes[..i + 1][..i] == changes[..i];
  }

  lemma KeptNone(m: C.Entries<Answer>, query: Query)
    ensures Kept(m, query, []) == m
  {
  }

  /** What Operate does to the caches is what the contracts of Mutated and Renamed say of the method that runs it. */
  lemma OperatePerforms(config: Config, w: World, op: Op)
    ensures var succeeded, w' := Apply(w.tree, op).Some?, Perform(config, w, Operate(op));
            var work := if !succeeded then []
                        else if op.Rename? then InvalidatePath(Render(op.from)) + InvalidatePath(Render(op.to))
                        else InvalidatePath(Render(op.p));
            w'.stats == Kept(w.stats, Stat, work) && w'.lists == Kept(w.lists, List, work)
  {
    KeptNone(w.stats, Stat);
    KeptNone(w.lists, List);
  }

  predicate Works(config: Config, w: World, actions: seq<Action>)
    decreases |actions|
  {
    actions != [] ==> Possible(w, actions[0]) && Works(config, Perform(config, w, actions[0]), actions[1..])
  }

  function Worked(config: Config, w: World, actions: seq<Action>): World
    requires Works(config, w, actions)
    decreases |actions|
  {
    if actions == [] then w else Worked(config, Perform(config, w, actions[0]), actions[1..])
  }

  /** The machine is where the wrapper is: same remote, same debts, same entries, no fetch under way. */
  ghost predicate Mirrors(s: Coherence.State, w: World) {
    s.tree == w.tree && s.due == w.due && s.flights == map[] && Represents(s.cache, w.stats, w.lists)
  }

  lemma DropMirrors(s: Coherence.State, w: World, query: Query, name: string)
    requires Mirrors(s, w)
    ensures Mirrors(Coherence.Do(s, Coherence.Drop(Key(query, name))),
                    Replaced(w, query, CacheOf(query, w.stats, w.lists) - {name}))
  {
  }

  lemma FetchMirrors(s: Coherence.State, w: World, query: Query, p: Path, e: C.Entry<Answer>)
    requires Mirrors(s, w) && Ask(w.tree, query, p) == Some(e.value)
    ensures Mirrors(Coherence.Do(s, Coherence.Fetch(query, p)),
                    Replaced(w, query, CacheOf(query, w.stats, w.lists)[Render(p) := e]))
  {
  }

  predicate ReadSteps(steps: seq<Coherence.Step>) {
    forall i | 0 <= i < |steps| :: steps[i].Drop? || steps[i].Fetch?
  }

  lemma FetchRuns(s: Coherence.State, w: World, query: Query, p: Path, e: C.Entry<Answer>)
    returns (steps: seq<Coherence.Step>)
    requires Mirrors(s, w) && Ask(w.tree, query, p) == Some(e.value)
    ensures ReadSteps(steps) && Coherence.Runs(s, steps)
    ensures Mirrors(Coherence.After(s, steps), Replaced(w, query, CacheOf(query, w.stats, w.lists)[Render(p) := e]))
  {
    FetchMirrors(s, w, query, p, e);
    Coherence.RunsCons(s, Coherence.Fetch(query, p), []);
    steps := [Coherence.Fetch(query, p)] + [];
  }

  lemma EvictionRuns(s: Coherence.State, w: World, query: Query, p: Path, victim: string, e: C.Entry<Answer>)
    returns (steps: seq<Coherence.Step>)
    requires Mirrors(s, w) && Ask(w.tree, query, p) == Some(e.value)
    ensures ReadSteps(steps) && Coherence.Runs(s, steps)
    ensures Mirrors(Coherence.After(s, steps),
                    Replaced(w, query, (CacheOf(query, w.stats, w.lists) - {victim})[Render(p) := e]))
  {
    var drop := Coherence.Drop(Key(query, victim));
    var w1 := Replaced(w, query, CacheOf(query, w.stats, w.lists) - {victim});
    DropMirrors(s, w, query, victim);
    var rest := FetchRuns(Coherence.Do(s, drop), w1, query, p, e);
    Coherence.RunsCons(s, drop, rest);
    steps := [drop] + rest;
  }

  /**
   A read through the wrapper is a run of the machine: nothing on a hit or an error, otherwise the
   eviction, if any, and an atomic fetch. The remote and what is due stay as they are.
   */
  lemma ReadRefines(config: Config, s: Coherence.State, w: World, query: Query, p: Path, now: int, order: seq<string>)
    returns (steps: seq<Coherence.Step>)
    requires Mirrors(s, w) && Possible(w, Read(query, p, now, order))
    ensures ReadSteps(steps) && Coherence.Runs(s, steps)
    ensures Mirrors(Coherence.After(s, steps), Perform(config, w, Read(query, p, now, order)))
  {
    var m, base := CacheOf(query, w.stats, w.lists), Ask(w.tree, query, p);
    if C.Lookup(m, Render(p), now).Some? || base.None? {
      return [];
    }
    var e := C.Entry(base.value, now + Lifetime(config, query));
    if |m| >= Limit(config, query) && C.Victim(m, order, now).Some? {
      steps := EvictionRuns(s, w, query, p, C.Victim(m, order, now).value, e);
    } else {
      steps := FetchRuns(s, w, query, p, e);
    }
  }

  lemma ForgettingMirrors(s: Coherence.State, w: World, work: seq<Inval>)
    requires Mirrors(s, w)
    ensures Represents(Coherence.Uncovered(s.cache, work), Forgetting(w, work).stats, Forgetting(w, work).lists)
    ensures Coherence.OvertakenBy(s.flights, work) == map[]
  {
    KeptHolds(s.cache, Stat, w.stats, work);
    KeptHolds(s.cache, List, w.lists, work);
  }

  lemma OperateRefines(config: Config, s: Coherence.State, w: World, op: Op) returns (steps: seq<Coherence.Step>)
    requires Mirrors(s, w)
    ensures Coherence.Runs(s, steps) && Coherence.Atomic(steps)
    ensures Mirrors(Coherence.After(s, steps), Perform(config, w, Operate(op)))
  {
    if Apply(w.tree, op).None? {
      steps := [];
    } else {
      Coherence.OperatingRuns(s, op);
      Coherence.OperatingIsAtomic(op);
      ForgettingMirrors(s, w, InvalidationsOf(op));
      steps := Coherence.Operating(op);
    }
  }

  lemma ChangedMirrors(s: Coherence.State, w: World, t: Tree, work: seq<Inval>)
    requires Mirrors(s, w)
    ensures Mirrors(Coherence.Owing(s, t, work), Changed(w, t, work))
  {
  }

  lemma OneStep(s: Coherence.State, step: Coherence.Step)
    requires Coherence.Enabled(s, step) && Coherence.AtomicStep(step)
    ensures Coherence.Runs(s, [step]) && Coherence.Atomic([step]) && Coherence.After(s, [step]) == Coherence.Do(s, step)
  {
    assert [step] == [step] + [];
    Coherence.RunsCons(s, step, []);
  }

  lemma ChangeRefines(config: Config, s: Coherence.State, w: World, op: Op) returns (steps: seq<Coherence.Step>)
    requires Mirrors(s, w) && Apply(w.tree, op).Some?
    ensures Coherence.Runs(s, steps) && Coherence.Atomic(steps)
    ensures Mirrors(Coherence.After(s, steps), Perform(config, w, Change(op)))
  {
    OneStep(s, Coherence.Mutate(op));
    ChangedMirrors(s, w, Apply(w.tree, op).value, InvalidationsOf(op));
    steps := [Coherence.Mutate(op)];
  }

  lemma DeliverRefines(config: Config, s: Coherence.State, w: World, changes: seq<string>)
    returns (steps: seq<Coherence.Step>)
    requires Mirrors(s, w)
    ensures Coherence.Runs(s, steps) && Coherence.Atomic(steps)
    ensures Mirrors(Coherence.After(s, steps), Perform(config, w, Deliver(changes)))
  {
    Coherence.RunAllKeeps(s, InvalidateEach(changes));
    Coherence.InvalidatingIsAtomic(InvalidateEach(changes));
    ForgettingMirrors(s, w, InvalidateEach(changes));
    steps := Coherence.Invalidating(InvalidateEach(changes));
  }

  /** Each action of the wrapper is a run of the machine with atomic fetches. */
  lemma ActionRefines(config: Config, s: Coherence.State, w: World, a: Action) returns (steps: seq<Coherence.Step>)
    requires Mirrors(s, w) && Possible(w, a)
    ensures Coherence.Runs(s, steps) && Coherence.Atomic(steps)
    ensures Mirrors(Coherence.After(s, steps), Perform(config, w, a))
  {
    match a
    case Read(query, p, now, order) =>
      steps := ReadRefines(config, s, w, query, p, now, order);
    case Operate(op) =>
      steps := OperateRefines(config, s, w, op);
    case Change(op) =>
      steps := ChangeRefines(config, s, w, op);
    case Deliver(changes) =>
      steps := DeliverRefines(config, s, w, changes);
  }

  /** The wrapper refines the machine: whatever actions it performs, the machine can follow. */
  lemma {:induction false} WrapperRefines(config: Config, s: Coherence.State, w: World, actions: seq<Action>)
    returns (steps: seq<Coherence.Step>)
    requires Mirrors(s, w) && Works(config, w, actions)
    ensures Coherence.Runs(s, steps) && Coherence.Atomic(steps)
    ensures Mirrors(Coherence.After(s, steps), Worked(config, w, actions))
    decreases |actions|
  {
    if actions == [] {
      steps := [];
    } else {
      var first := ActionRefines(config, s, w, actions[0]);
      var mid := Coherence.After(s, first);
      var rest := WrapperRefines(config, mid, Perform(config, w, actions[0]), actions[1..]);
      Coherence.RunsConcat(s, first, rest);
      steps := first + rest;
    }
  }

  /**
   Coherence of the wrapper itself: from empty caches, after any actions whatever, and whatever has
   expired or been evicted, a read answers what the remote answers unless an undelivered change event
   owes an invalidation of its key; when no event is undelivered, every read is exact.
   */
  lemma WrapperIsCoherent(config: Config, t: Tree, start: int, actions: seq<Action>, query: Query, p: Path, now: int,
                          order: seq<string>)
    requires Works(config, Opened(t, start), actions)
    requires Possible(Worked(config, Opened(t, start), actions), Read(query, p, now, order))
    ensures var w := Worked(config, Opened(t, start), actions);
            var told := Reading(config, w, query, p, now, order).1;
            && (told == Ask(w.tree, query, p) || Coherence.IsDue(w.due, KeyOf(query, p)))
            && (w.due == {} ==> told == Ask(w.tree, query, p))
  {
    var s0, w := Coherence.Start(t), Worked(config, Opened(t, start), actions);
    var steps := WrapperRefines(config, s0, Opened(t, start), actions);
    Coherence.WatchCoherence(t, steps, query, p);
    var s, k := Coherence.After(s0, steps), Key(query, Render(p));
    assert k in s.cache <==> Render(p) in CacheOf(query, w.stats, w.lists);
  }

  // ---------- What is cached stays cached ----------

  function EntriesOf(w: World, query: Query): C.Entries<Answer> {
    CacheOf(query, w.stats, w.lists)
  }

  /** The action neither invalidates nor evicts what stands under `name`. */
  predicate Spares(config: Config, w: World, a: Action, query: Query, name: string)
    requires Possible(w, a)
  {
    match a
    case Read(q, _, now, order) => q == query ==> C.Spared(EntriesOf(w, q), Limit(config, q), order, now, name)
    case Operate(op) => Apply(w.tree, op).Some? ==> !CoversAny(InvalidationsOf(op), Key(query, name))
    case Change(_) => true
    case Deliver(changes) => !CoversAny(InvalidateEach(changes), Key(query, name))
  }

  predicate AllSpare(config: Config, w: World, actions: seq<Action>, query: Query, name: string)
    requires Works(config, w, actions)
    decreases |actions|
  {
    actions != [] ==>
      && Spares(config, w, actions[0], query, name)
      && AllSpare(config, Perform(config, w, actions[0]), actions[1..], query, name)
  }

  lemma EntrySpared(config: Config, w: World, a: Action, query: Query, name: string)
    requires Possible(w, a) && Spares(config, w, a, query, name) && name in EntriesOf(w, query)
    requires Perform(config, w, a).clock <= EntriesOf(w, query)[name].expiresAt
    ensures var w' := Perform(config, w, a);
            && w.clock <= w'.clock && name in EntriesOf(w', query)
            && EntriesOf(w', query)[name] == EntriesOf(w, query)[name]
  {
    if a.Read? && a.query == query {
      var base := Ask(w.tree, query, a.p);
      var m := EntriesOf(w, query);
      var (m', told) := Reading(config, w, query, a.p, a.now, a.order);
      C.ReadCachedReadsThrough(m, Limit(config, query), Lifetime(config, query), a.order, Render(a.p), base, a.now);
      C.LiveEntryStays(m, Limit(config, query), Lifetime(config, query), a.order, Render(a.p), base, a.now,
                       m', told, name);
    }
  }

  lemma {:induction false} ClockGrows(config: Config, w: World, actions: seq<Action>)
    requires Works(config, w, actions)
    ensures w.clock <= Worked(config, w, actions).clock
    decreases |actions|
  {
    if actions != [] { ClockGrows(config, Perform(config, w, actions[0]), actions[1..]); }
  }

  lemma {:induction false} EntryStays(config: Config, w: World, actions: seq<Action>, query: Query, name: string)
    requires Works(config, w, actions) && AllSpare(config, w, actions, query, name) && name in EntriesOf(w, query)
    requires Worked(config, w, actions).clock <= EntriesOf(w, query)[name].expiresAt
    ensures var w' := Worked(config, w, actions);
            name in EntriesOf(w', query) && EntriesOf(w', query)[name] == EntriesOf(w, query)[name]
    decreases |actions|
  {
    if actions != [] {
      var next := Perform(config, w, actions[0]);
      ClockGrows(config, next, actions[1..]);
      EntrySpared(config, w, actions[0], query, name);
      EntryStays(config, next, actions[1..], query, name);
    }
  }

  /**
   Caching itself: when a read misses and the remote answers, then after any actions that neither
   invalidate nor evict the entry, every read of the key within the lifetime is told the same from the
   cache, whatever the remote would say by then.
   */
  lemma ReadsRepeat(config: Config, w: World, query: Query, p: Path, now: int, order: seq<string>, actions: seq<Action>,
                    later: int, order': seq<string>)
    requires Possible(w, Read(query, p, now, order)) && C.Lookup(EntriesOf(w, query), Render(p), now).None?
    requires Ask(w.tree, query, p).Some?
    requires var w1 := Perform(config, w, Read(query, p, now, order));
             Works(config, w1, actions) && AllSpare(config, w1, actions, query, Render(p))
    requires var w2 := Worked(config, Perform(config, w, Read(query, p, now, order)), actions);
             Possible(w2, Read(query, p, later, order')) && later <= now + Lifetime(config, query)
    ensures var w2 := Worked(config, Perform(config, w, Read(query, p, now, order)), actions);
            && C.Lookup(EntriesOf(w2, query), Render(p), later) == Ask(w.tree, query, p)
            && Reading(config, w2, query, p, later, order').1 == Ask(w.tree, query, p)
  {
    var base, w1 := Ask(w.tree, query, p), Perform(config, w, Read(query, p, now, order));
    C.ReadCachedReadsThrough(
      EntriesOf(w, query), Limit(config, query), Lifetime(config, query), order, Render(p), base, now);
    EntryStays(config, w1, actions, query, Render(p));
  }

  class CachedFS {
    const statCache: C.Cache<Answer>
    const dirCache: C.Cache<Answer>

    ghost predicate Valid()
      reads this, statCache, dirCache
    {
      statCache != dirCache && statCache.Valid() && dirCache.Valid()
    }

    constructor (statTTL: int, statMax: int, dirTTL: int, dirMax: int, ghost now: int)
      ensures Valid() && fresh(statCache) && fresh(dirCache)
      ensures statCache.entries == map[] && dirCache.entries == map[]
    {
      statCache := new C.Cache(statTTL, statMax, now);
      dirCache := new C.Cache(dirTTL, dirMax, now);
    }

    /** A hit answers from the cache; a miss answers, and stores, what the base says. Errors are not stored. */
    method StatPath(p: string, base: Option<Answer>, now: int, order: seq<string>) returns (r: Option<Answer>)
      requires Valid() && now >= statCache.clock && C.Enumerates(order, statCache.entries.Keys)
      modifies statCache
      ensures Valid()
      ensures (statCache.entries, r) ==
              C.ReadCached(old(statCache.entries), statCache.maxSize, statCache.ttl, order, p, base, now)
      ensures C.Lookup(old(statCache.entries), p, now).Some? ==>
                r == C.Lookup(old(statCache.entries), p, now) && statCache.entries == old(statCache.entries)
      ensures C.Lookup(old(statCache.entries), p, now).None? ==>
                && r == base
                && (base.Some? ==>
                      p in statCache.entries && statCache.entries[p] == C.Entry(base.value, now + statCache.ttl))
    {
      r := statCache.Get(p, now);
      if r.None? {
        if base.Some? {
          statCache.Set(p, base.value, now, order);
        }
        r := base;
      }
    }

    method ReadDirPath(p: string, base: Option<Answer>, now: int, order: seq<string>) returns (r: Option<Answer>)
      requires Valid() && now >= dirCache.clock && C.Enumerates(order, dirCache.entries.Keys)
      modifies dirCache
      ensures Valid()
      ensures (dirCache.entries, r) ==
              C.ReadCached(old(dirCache.entries), dirCache.maxSize, dirCache.ttl, order, p, base, now)
      ensures C.Lookup(old(dirCache.entries), p, now).Some? ==>
                r == C.Lookup(old(dirCache.entries), p, now) && dirCache.entries == old(dirCache.entries)
      ensures C.Lookup(old(dirCache.entries), p, now).None? ==>
                && r == base
                && (base.Some? ==>
                      p in dirCache.entries && dirCache.entries[p] == C.Entry(base.value, now + dirCache.ttl))
    {
      r := dirCache.Get(p, now);
      if r.None? {
        if base.Some? {
          dirCache.Set(p, base.value, now, order);
        }
        r := base;
      }
    }

    method Invalidate(p: string)
      requires Valid()
      modifies statCache, dirCache
      ensures Valid()
      ensures statCache.entries == Kept(old(statCache.entries), Stat, InvalidatePath(p))
      ensures dirCache.entries == Kept(old(dirCache.entries), List, InvalidatePath(p))
    {
      statCache.Invalidate(p);
      statCache.InvalidatePrefix(p + "/");
      dirCache.Invalidate(p);
      dirCache.Invalidate(Dir(p));
      dirCache.InvalidatePrefix(p + "/");
      StatKept(old(statCache.entries), p);
      ListKept(old(dirCache.entries), p);
    }

    /** WriteFile, Mkdir and Delete: invalidate only when the base succeeded. */
    method Mutated(p: string, succeeded: bool)
      requires Valid()
      modifies statCache, dirCache
      ensures Valid()
      ensures statCache.entries == Kept(old(statCache.entries), Stat, if succeeded then InvalidatePath(p) else [])
      ensures dirCache.entries == Kept(old(dirCache.entries), List, if succeeded then InvalidatePath(p) else [])
    {
      if succeeded {
        Invalidate(p);
      }
    }

    method Renamed(from: string, to: string, succeeded: bool)
      requires Valid()
      modifies statCache, dirCache
      ensures Valid()
      ensures var work := if succeeded then InvalidatePath(from) + InvalidatePath(to) else [];
              && statCache.entries == Kept(old(statCache.entries), Stat, work)
              && dirCache.entries == Kept(old(dirCache.entries), List, work)
    {
      if succeeded {
        Invalidate(from);
        Invalidate(to);
        KeptTwice(old(statCache.entries), Stat, InvalidatePath(from), InvalidatePath(to));
        KeptTwice(old(dirCache.entries), List, InvalidatePath(from), InvalidatePath(to));
      }
    }

    method ApplyChanges(changes: seq<string>)
      requires Valid()
      modifies statCache, dirCache
      ensures Valid()
      ensures statCache.entries == Kept(old(statCache.entries), Stat, InvalidateEach(changes))
      ensures dirCache.entries == Kept(old(dirCache.entries), List, InvalidateEach(changes))
    {
      for i := 0 to |changes|
        invariant Valid()
        invariant statCache.entries == Kept(old(statCache.entries), Stat, InvalidateEach(changes[..i]))
        invariant dirCache.entries == Kept(old(dirCache.entries), List, InvalidateEach(changes[..i]))
      {
        Invalidate(changes[i]);
        EachSnoc(changes, i);
        KeptTwice(old(statCache.entries), Stat, InvalidateEach(changes[..i]), InvalidatePath(changes[i]));
        KeptTwice(old(dirCache.entries), List, InvalidateEach(changes[..i]), InvalidatePath(changes[i]));
      }
      assert changes[..|changes|] == changes;
    }
  }
}
