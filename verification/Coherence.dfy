/**
 The shared metadata cache as interleaved atomic steps: fetches split into the join, the remote's
 answer, the store and the end, operations split into the remote effect and the cache invalidations
 that are then due, whether a local caller or an undelivered watch event owes them.
 */
module Coherence {
  import opened Wrappers
  import opened Paths
  import opened Tree

  /** `raced`: an invalidation of the key ran between the remote's answer and the store. */
  datatype Entry = Entry(answer: Answer, raced: bool)

  /**
   The running fetch of a key, at most one: every read that misses meanwhile joins it and is told its
   answer, which may be an error, None. `stored`: a success is in the cache, the fetch not yet over.
   */
  datatype Flight = Asking | Answered(answer: Option<Answer>, raced: bool, stored: bool)

  /** `due` holds the invalidations that a mutation has made due and that have not run since. */
  datatype State = State(tree: Tree, cache: map<Key, Entry>, flights: map<Key, Flight>, due: set<Inval>)

  datatype Step =
    | Mutate(op: Op)                       // takes effect on the remote; its invalidations become due
    | Invalidate(work: Inval)              // one critical section, in any order, due or not
    | Begin(key: Key)                      // a read that missed starts the fetch that later ones join
    | ReadRemote(query: Query, p: Path)    // the fetch gets the remote's answer
    | Store(key: Key)                      // and puts it into the cache, unless it is an error
    | Finish(key: Key)                     // and ends
    | Fetch(query: Query, p: Path)         // all four with nothing in between
    | Drop(key: Key)                       // eviction or expiry

  function Start(t: Tree): State {
    State(t, map[], map[], {})
  }

  predicate Joinable(s: State, k: Key) {
    k in s.flights && s.flights[k].Answered?
  }

  predicate Enabled(s: State, step: Step) {
    match step
    case Mutate(op) => Apply(s.tree, op).Some?
    case Invalidate(_) => true
    case Begin(key) => key !in s.flights
    case ReadRemote(query, p) => KeyOf(query, p) in s.flights && s.flights[KeyOf(query, p)].Asking?
    case Store(key) => Joinable(s, key) && s.flights[key].answer.Some? && !s.flights[key].stored
    case Finish(key) => Joinable(s, key) && (s.flights[key].answer.Some? ==> s.flights[key].stored)
    case Fetch(query, p) => KeyOf(query, p) !in s.flights
    case Drop(_) => true
  }

  function Overtaken(f: Flight): Flight {
    if f.Answered? then f.(raced := true) else f
  }

  function Listed(work: seq<Inval>): set<Inval> {
    set i | i in work
  }

  /** The remote is now `t`, and `work` is due. */
  function Owing(s: State, t: Tree, work: seq<Inval>): State {
    State(t, s.cache, s.flights, s.due + Listed(work))
  }

  function Removed(cache: map<Key, Entry>, work: Inval): map<Key, Entry> {
    map k | k in cache && !Covers(work, k) :: cache[k]
  }

  function Flagged(flights: map<Key, Flight>, work: Inval): map<Key, Flight> {
    map k | k in flights :: if Covers(work, k) then Overtaken(flights[k]) else flights[k]
  }

  function Invalidated(s: State, work: Inval): State {
    State(s.tree, Removed(s.cache, work), Flagged(s.flights, work), s.due - {work})
  }

  function Do(s: State, step: Step): State
    requires Enabled(s, step)
  {
    match step
    case Mutate(op) => Owing(s, Apply(s.tree, op).value, InvalidationsOf(op))
    case Invalidate(work) => Invalidated(s, work)
    case Begin(key) => s.(flights := s.flights[key := Asking])
    case ReadRemote(query, p) =>
      s.(flights := s.flights[KeyOf(query, p) := Answered(Ask(s.tree, query, p), false, false)])
    case Store(key) =>
      var f := s.flights[key];
      s.(cache := s.cache[key := Entry(f.answer.value, f.raced)], flights := s.flights[key := f.(stored := true)])
    case Finish(key) => s.(flights := s.flights - {key})
    case Fetch(query, p) =>
      var answer := Ask(s.tree, query, p);
      if answer.None? then s else s.(cache := s.cache[KeyOf(query, p) := Entry(answer.value, false)])
    case Drop(key) => s.(cache := s.cache - {key})
  }

  predicate Runs(s: State, steps: seq<Step>)
    decreases |steps|
  {
    steps != [] ==> Enabled(s, steps[0]) && Runs(Do(s, steps[0]), steps[1..])
  }

  function After(s: State, steps: seq<Step>): State
    requires Runs(s, steps)
    decreases |steps|
  {
    if steps == [] then s else After(Do(s, steps[0]), steps[1..])
  }

  lemma RunsCons(s: State, step: Step, rest: seq<Step>)
    requires Enabled(s, step) && Runs(Do(s, step), rest)
    ensures Runs(s, [step] + rest) && After(s, [step] + rest) == After(Do(s, step), rest)
  {
    assert ([step] + rest)[1..] == rest;
  }

  /** A run with its partial step function as a parameter, None once a step is not enabled. */
  function RunBy<S, T>(next: (S, T) -> Option<S>, s: S, steps: seq<T>): Option<S>
    decreases |steps|
  {
    if steps == [] then Some(s)
    else match next(s, steps[0])
      case None => None
      case Some(s') => RunBy(next, s', steps[1..])
  }

  lemma {:induction false} RunByConcat<S, T>(next: (S, T) -> Option<S>, s: S, first: seq<T>, rest: seq<T>)
    requires RunBy(next, s, first).Some?
    ensures RunBy(next, s, first + rest) == RunBy(next, RunBy(next, s, first).value, rest)
    decreases |first|
  {
    if first == [] {
      assert first + rest == rest;
    } else {
      RunByConcat(next, next(s, first[0]).value, first[1..], rest);
      assert (first + rest)[1..] == first[1..] + rest;
    }
  }

  function Next(s: State, step: Step): Option<State> {
    if Enabled(s, step) then Some(Do(s, step)) else None
  }

  lemma {:induction false} RunByIs(s: State, steps: seq<Step>)
    ensures RunBy(Next, s, steps) == if Runs(s, steps) then Some(After(s, steps)) else None
    decreases |steps|
  {
    if steps != [] && Enabled(s, steps[0]) {
      RunByIs(Do(s, steps[0]), steps[1..]);
    }
  }

  lemma RunsConcat(s: State, first: seq<Step>, rest: seq<Step>)
    requires Runs(s, first) && Runs(After(s, first), rest)
    ensures Runs(s, first + rest) && After(s, first + rest) == After(After(s, first), rest)
  {
    RunByIs(s, first);
    RunByIs(After(s, first), rest);
    RunByConcat(Next, s, first, rest);
    RunByIs(s, first + rest);
  }

  /** What a read that starts now is told: by the cache, else by the running fetch it joins, else by the remote. */
  function CachedAsk(s: State, query: Query, p: Path): Option<Answer> {
    var k := KeyOf(query, p);
    if k in s.cache then Some(s.cache[k].answer)
    else if Joinable(s, k) then s.flights[k].answer
    else Ask(s.tree, query, p)
  }

  // ---------- The invariant ----------

  predicate IsDue(due: set<Inval>, k: Key) {
    exists work | work in due :: Covers(work, k)
  }

  /** The answer is current, or an invalidation of its key is due, or one overtook the fetch that holds it. */
  predicate Accounted(s: State, query: Query, p: Path, answer: Option<Answer>, raced: bool) {
    raced || IsDue(s.due, KeyOf(query, p)) || Ask(s.tree, query, p) == answer
  }

  predicate EntryAccounted(s: State, query: Query, p: Path) {
    var k := KeyOf(query, p);
    k in s.cache ==> Accounted(s, query, p, Some(s.cache[k].answer), s.cache[k].raced)
  }

  predicate FlightAccounted(s: State, query: Query, p: Path) {
    var k := KeyOf(query, p);
    Joinable(s, k) ==> Accounted(s, query, p, s.flights[k].answer, s.flights[k].raced)
  }

  ghost predicate Inv(s: State) {
    forall query, p :: EntryAccounted(s, query, p) && FlightAccounted(s, query, p)
  }

  lemma DueAdded(due: set<Inval>, work: seq<Inval>, k: Key)
    requires CoversAny(work, k)
    ensures IsDue(due + Listed(work), k)
  {
    var n :| 0 <= n < |work| && Covers(work[n], k);
    assert work[n] in due + Listed(work);
  }

  /** A mutation makes an invalidation due for every key whose answer it changes. */
  lemma MutationIsDue(t: Tree, op: Op, due: set<Inval>, query: Query, p: Path)
    requires Apply(t, op).Some?
    requires Ask(Apply(t, op).value, query, p) != Ask(t, query, p)
    ensures IsDue(due + Listed(InvalidationsOf(op)), KeyOf(query, p))
  {
    if !ConcernsAny(Touched(op), query, p) { FootprintAdequate(t, op, query, p); }
    OperationCoversExactly(t, op, query, p);
    DueAdded(due, InvalidationsOf(op), KeyOf(query, p));
  }

  lemma AccountedMutate(s: State, op: Op, query: Query, p: Path, answer: Option<Answer>, raced: bool)
    requires Enabled(s, Mutate(op)) && Accounted(s, query, p, answer, raced)
    ensures Accounted(Do(s, Mutate(op)), query, p, answer, raced)
  {
    var s' := Do(s, Mutate(op));
    if IsDue(s.due, KeyOf(query, p)) {
      var work :| work in s.due && Covers(work, KeyOf(query, p));
      assert work in s'.due;
    } else if !raced && Ask(s'.tree, query, p) != Ask(s.tree, query, p) {
      MutationIsDue(s.tree, op, s.due, query, p);
    }
  }

  lemma AccountedInvalidate(s: State, work: Inval, query: Query, p: Path, answer: Option<Answer>, raced: bool)
    requires Accounted(s, query, p, answer, raced) && !Covers(work, KeyOf(query, p))
    ensures Accounted(Do(s, Invalidate(work)), query, p, answer, raced)
  {
    if IsDue(s.due, KeyOf(query, p)) {
      var w :| w in s.due && Covers(w, KeyOf(query, p));
      assert w in s.due - {work};
    }
  }

  lemma SameKey(query: Query, p: Path, query': Query, q: Path)
    ensures KeyOf(query, p) == KeyOf(query', q) <==> query == query' && p == q
  {
    RenderInjective(p, q);
  }

  lemma EntryStep(s: State, step: Step, query: Query, p: Path)
    requires EntryAccounted(s, query, p) && FlightAccounted(s, query, p) && Enabled(s, step)
    ensures EntryAccounted(Do(s, step), query, p)
  {
    var k := KeyOf(query, p);
    if k in s.cache && step.Mutate? {
      AccountedMutate(s, step.op, query, p, Some(s.cache[k].answer), s.cache[k].raced);
    } else if k in s.cache && step.Invalidate? && !Covers(step.work, k) {
      AccountedInvalidate(s, step.work, query, p, Some(s.cache[k].answer), s.cache[k].raced);
    } else if step.Fetch? {
      SameKey(query, p, step.query, step.p);
    }
  }

  lemma FlightStep(s: State, step: Step, query: Query, p: Path)
    requires FlightAccounted(s, query, p) && Enabled(s, step)
    ensures FlightAccounted(Do(s, step), query, p)
  {
    var k := KeyOf(query, p);
    if Joinable(s, k) && step.Mutate? {
      AccountedMutate(s, step.op, query, p, s.flights[k].answer, s.flights[k].raced);
    } else if Joinable(s, k) && step.Invalidate? && !Covers(step.work, k) {
      AccountedInvalidate(s, step.work, query, p, s.flights[k].answer, s.flights[k].raced);
    } else if step.ReadRemote? {
      SameKey(query, p, step.query, step.p);
    }
  }

  lemma InvStep(s: State, step: Step)
    requires Inv(s) && Enabled(s, step)
    ensures Inv(Do(s, step))
  {
    forall query, p ensures EntryAccounted(Do(s, step), query, p) && FlightAccounted(Do(s, step), query, p) {
      EntryStep(s, step, query, p);
      FlightStep(s, step, query, p);
    }
  }

  lemma {:induction false} RunInv(s: State, steps: seq<Step>)
    requires Inv(s) && Runs(s, steps)
    ensures Inv(After(s, steps))
    decreases |steps|
  {
    if steps != [] {
      InvStep(s, steps[0]);
      RunInv(Do(s, steps[0]), steps[1..]);
    }
  }

  /** What a read of `k` is told comes from a fetch that an invalidation of `k` overtook. */
  predicate Raced(s: State, k: Key) {
    if k in s.cache then s.cache[k].raced else Joinable(s, k) && s.flights[k].raced
  }

  /**
   In-flight exactness, over every run: a read that is told, from the cache or from the fetch it joins,
   what the remote would not answer has an invalidation of its key due, or is told what was fetched
   before an invalidation of its key went past.
   */
  lemma StaleIsDueOrRaced(t: Tree, steps: seq<Step>, query: Query, p: Path)
    requires Runs(Start(t), steps)
    ensures var s, k := After(Start(t), steps), KeyOf(query, p);
            CachedAsk(s, query, p) != Ask(s.tree, query, p) ==> Raced(s, k) || IsDue(s.due, k)
  {
    RunInv(Start(t), steps);
    assert EntryAccounted(After(Start(t), steps), query, p) && FlightAccounted(After(Start(t), steps), query, p);
  }

  // ---------- Atomic fetches ----------

  predicate AtomicStep(step: Step) {
    step.Mutate? || step.Invalidate? || step.Fetch? || step.Drop?
  }

  predicate Atomic(steps: seq<Step>) {
    forall i | 0 <= i < |steps| :: AtomicStep(steps[i])
  }

  predicate Unraced(s: State) {
    s.flights == map[] && forall k | k in s.cache :: !s.cache[k].raced
  }

  lemma UnracedStep(s: State, step: Step)
    requires Unraced(s) && Enabled(s, step) && AtomicStep(step)
    ensures Unraced(Do(s, step))
  {
    if step.Invalidate? { assert Flagged(s.flights, step.work) == map[]; }
  }

  lemma AtomicTail(steps: seq<Step>)
    requires Atomic(steps) && steps != []
    ensures AtomicStep(steps[0]) && Atomic(steps[1..])
  {
    assert forall i | 0 <= i < |steps| - 1 :: steps[1..][i] == steps[i + 1];
  }

  lemma {:induction false} AtomicRunsUnraced(s: State, steps: seq<Step>)
    requires Unraced(s) && Runs(s, steps) && Atomic(steps)
    ensures Unraced(After(s, steps))
    decreases |steps|
  {
    if steps != [] {
      AtomicTail(steps);
      UnracedStep(s, steps[0]);
      AtomicRunsUnraced(Do(s, steps[0]), steps[1..]);
    }
  }

  /**
   Watch coherence: with atomic fetches, over every run and every order of local calls, external
   changes, event deliveries, evictions and expiries, a cached answer differs from the remote's only
   where an invalidation is still due; with none due, cached and uncached reads agree everywhere.
   */
  lemma WatchCoherence(t: Tree, steps: seq<Step>, query: Query, p: Path)
    requires Runs(Start(t), steps) && Atomic(steps)
    ensures var s := After(Start(t), steps);
            CachedAsk(s, query, p) == Ask(s.tree, query, p) || IsDue(s.due, KeyOf(query, p))
    ensures var s := After(Start(t), steps);
            s.due == {} ==> CachedAsk(s, query, p) == Ask(s.tree, query, p)
  {
    AtomicRunsUnraced(Start(t), steps);
    StaleIsDueOrRaced(t, steps, query, p);
  }

  // ---------- Lists of invalidations ----------

  function Invalidating(work: seq<Inval>): seq<Step> {
    seq(|work|, i requires 0 <= i < |work| => Invalidate(work[i]))
  }

  function Uncovered(cache: map<Key, Entry>, work: seq<Inval>): map<Key, Entry> {
    map k | k in cache && !CoversAny(work, k) :: cache[k]
  }

  function OvertakenBy(flights: map<Key, Flight>, work: seq<Inval>): map<Key, Flight> {
    map k | k in flights :: if CoversAny(work, k) then Overtaken(flights[k]) else flights[k]
  }

  /** All of `work` has run: what it covers is gone from the cache and overtaken in the fetches, no more. */
  function Passed(s: State, work: seq<Inval>): State {
    State(s.tree, Uncovered(s.cache, work), OvertakenBy(s.flights, work), s.due - Listed(work))
  }

  lemma PassedNone(s: State)
    ensures Passed(s, []) == s
  {
    assert Uncovered(s.cache, []) == s.cache && OvertakenBy(s.flights, []) == s.flights;
  }

  lemma UncoveredCons(cache: map<Key, Entry>, work: seq<Inval>)
    requires work != []
    ensures Uncovered(Removed(cache, work[0]), work[1..]) == Uncovered(cache, work)
  {
    forall k { CoversAnyCons(work, k); }
  }

  lemma OvertakenCons(flights: map<Key, Flight>, work: seq<Inval>)
    requires work != []
    ensures OvertakenBy(Flagged(flights, work[0]), work[1..]) == OvertakenBy(flights, work)
  {
    forall k { CoversAnyCons(work, k); }
  }

  lemma PassedCons(s: State, work: seq<Inval>)
    requires work != []
    ensures Passed(Invalidated(s, work[0]), work[1..]) == Passed(s, work)
  {
    UncoveredCons(s.cache, work);
    OvertakenCons(s.flights, work);
    assert work == [work[0]] + work[1..];
  }

  lemma {:induction false} RunAllBy(next: (State, Step) -> Option<State>, s: State, work: seq<Inval>)
    requires forall u, w :: next(u, Invalidate(w)) == Some(Invalidated(u, w))
    ensures RunBy(next, s, Invalidating(work)) == Some(Passed(s, work))
    decreases |work|
  {
    if work == [] {
      PassedNone(s);
    } else {
      var s1, rest := Invalidated(s, work[0]), Invalidating(work[1..]);
      RunAllBy(next, s1, work[1..]);
      PassedCons(s, work);
      assert Invalidating(work)[1..] == rest;
    }
  }

  lemma RunAllKeeps(s: State, work: seq<Inval>)
    ensures Runs(s, Invalidating(work)) && After(s, Invalidating(work)) == Passed(s, work)
  {
    forall u, w ensures Next(u, Invalidate(w)) == Some(Invalidated(u, w)) {
    }
    RunAllBy(Next, s, work);
    RunByIs(s, Invalidating(work));
  }

  lemma ThenInvalidating(s: State, step: Step, work: seq<Inval>)
    requires Enabled(s, step)
    ensures Runs(s, [step] + Invalidating(work)) && After(s, [step] + Invalidating(work)) == Passed(Do(s, step), work)
  {
    RunAllKeeps(Do(s, step), work);
    RunsCons(s, step, Invalidating(work));
  }

  lemma OwedAndPassed(s: State, t: Tree, work: seq<Inval>)
    ensures Passed(Owing(s, t, work), work)
         == State(t, Uncovered(s.cache, work), OvertakenBy(s.flights, work), s.due - Listed(work))
  {
  }

  /** An operation, its remote effect and then all its invalidations. */
  function Operating(op: Op): seq<Step> {
    [Mutate(op)] + Invalidating(InvalidationsOf(op))
  }

  lemma InvalidatingIsAtomic(work: seq<Inval>)
    ensures Atomic(Invalidating(work))
  {
  }

  lemma OperatingIsAtomic(op: Op)
    ensures Atomic(Operating(op))
  {
    InvalidatingIsAtomic(InvalidationsOf(op));
  }

  lemma OperatingRuns(s: State, op: Op)
    requires Enabled(s, Mutate(op))
    ensures Runs(s, Operating(op))
    ensures var t, work := Apply(s.tree, op).value, InvalidationsOf(op);
            After(s, Operating(op)) ==
              State(t, Uncovered(s.cache, work), OvertakenBy(s.flights, work), s.due - Listed(work))
  {
    ThenInvalidating(s, Mutate(op), InvalidationsOf(op));
    OwedAndPassed(s, Apply(s.tree, op).value, InvalidationsOf(op));
  }

  // ---------- Read your writes ----------

  /** The state with another answer in the running fetch of `k`, if that has one. */
  function WithAnswer(s: State, k: Key, answer: Option<Answer>): State {
    if Joinable(s, k) then s.(flights := s.flights[k := s.flights[k].(answer := answer)]) else s
  }

  /** The fetch of a key that has an answer has the remote's. */
  predicate FlightRight(s: State, query: Query, p: Path) {
    Joinable(s, KeyOf(query, p)) ==> s.flights[KeyOf(query, p)].answer == Ask(s.tree, query, p)
  }

  predicate EntryRight(s: State, query: Query, p: Path) {
    KeyOf(query, p) in s.cache ==> Some(s.cache[KeyOf(query, p)].answer) == Ask(s.tree, query, p)
  }

  /** The step changes nothing on the remote that concerns the key. */
  predicate LeavesAlone(step: Step, query: Query, p: Path) {
    step.Mutate? ==> !ConcernsAny(Touched(step.op), query, p)
  }

  predicate Invalidates(step: Step, query: Query, p: Path) {
    step.Invalidate? && Covers(step.work, KeyOf(query, p))
  }

  lemma RightStep(s: State, step: Step, query: Query, p: Path)
    requires Enabled(s, step) && LeavesAlone(step, query, p) && FlightRight(s, query, p)
    ensures FlightRight(Do(s, step), query, p)
    ensures EntryRight(s, query, p) || Invalidates(step, query, p) ==> EntryRight(Do(s, step), query, p)
  {
    if step.Mutate? {
      FootprintAdequate(s.tree, step.op, query, p);
    } else if step.ReadRemote? || step.Fetch? {
      SameKey(query, p, step.query, step.p);
    }
  }

  lemma {:induction false} RightRun(s: State, steps: seq<Step>, query: Query, p: Path)
    requires Runs(s, steps) && FlightRight(s, query, p)
    requires forall i | 0 <= i < |steps| :: LeavesAlone(steps[i], query, p)
    requires EntryRight(s, query, p) || exists i | 0 <= i < |steps| :: Invalidates(steps[i], query, p)
    ensures FlightRight(After(s, steps), query, p) && EntryRight(After(s, steps), query, p)
    decreases |steps|
  {
    if steps != [] {
      var rest := steps[1..];
      assert forall i | 0 <= i < |rest| :: rest[i] == steps[i + 1];
      assert LeavesAlone(steps[0], query, p);
      RightStep(s, steps[0], query, p);
      if !EntryRight(s, query, p) && !Invalidates(steps[0], query, p) {
        var i :| 0 <= i < |steps| && Invalidates(steps[i], query, p);
        assert Invalidates(rest[i - 1], query, p);
      }
      RightRun(Do(s, steps[0]), rest, query, p);
    }
  }

  /**
   A run that can follow the operation's effect: anything at all, the operation's own invalidations among
   it, except another change that concerns the key.
   */
  predicate Follows(s: State, op: Op, steps: seq<Step>, query: Query, p: Path) {
    && Enabled(s, Mutate(op)) && Runs(Do(s, Mutate(op)), steps)
    && (forall i | 0 <= i < |steps| :: LeavesAlone(steps[i], query, p))
    && forall work <- InvalidationsOf(op) :: Invalidate(work) in steps
  }

  /** After the run, a read of the key is told what the remote answers. */
  predicate ReadsTheWrite(s: State, op: Op, steps: seq<Step>, query: Query, p: Path)
    requires Follows(s, op, steps, query, p)
  {
    var s' := After(Do(s, Mutate(op)), steps);
    CachedAsk(s', query, p) == Ask(s'.tree, query, p)
  }

  /**
   Read your writes over every interleaving: when an operation takes effect while no fetch of the key has
   its answer, every read of the key after the operation's invalidations is told what the remote answers.
   */
  lemma ReadYourWrites(s: State, op: Op, steps: seq<Step>, query: Query, p: Path)
    requires Follows(s, op, steps, query, p) && ConcernsAny(Touched(op), query, p) && !Joinable(s, KeyOf(query, p))
    ensures ReadsTheWrite(s, op, steps, query, p)
  {
    OperationCoversExactly(s.tree, op, query, p);
    var work := InvalidationsOf(op);
    var n :| 0 <= n < |work| && Covers(work[n], KeyOf(query, p));
    assert work[n] in work && Invalidate(work[n]) in steps;
    var i :| 0 <= i < |steps| && steps[i] == Invalidate(work[n]);
    assert Invalidates(steps[i], query, p);
    RightRun(Do(s, Mutate(op)), steps, query, p);
  }

  lemma UndisturbedFollows(s: State, op: Op, query: Query, p: Path)
    requires Enabled(s, Mutate(op)) && ConcernsAny(Touched(op), query, p) && Joinable(s, KeyOf(query, p))
    ensures var steps := Invalidating(InvalidationsOf(op));
            && Follows(s, op, steps, query, p)
            && (ReadsTheWrite(s, op, steps, query, p) <==>
                s.flights[KeyOf(query, p)].answer == Ask(Apply(s.tree, op).value, query, p))
  {
    var work := InvalidationsOf(op);
    RunAllKeeps(Do(s, Mutate(op)), work);
    OwedAndPassed(s, Apply(s.tree, op).value, work);
    OperationCoversExactly(s.tree, op, query, p);
    AllListed(work);
  }

  lemma AllListed(work: seq<Inval>)
    ensures forall w <- work :: Invalidate(w) in Invalidating(work)
  {
    forall w | w in work ensures Invalidate(w) in Invalidating(work) {
      var n :| 0 <= n < |work| && work[n] == w;
      assert Invalidating(work)[n] == Invalidate(w);
    }
  }

  /**
   Read your writes, exactly: whatever a running fetch of the key may hold and whatever happens meanwhile,
   the read is right, if and only if no fetch of its key has its answer when the operation takes effect.
   */
  lemma ReadYourWritesExactly(s: State, op: Op, query: Query, p: Path)
    requires Enabled(s, Mutate(op)) && ConcernsAny(Touched(op), query, p)
    ensures (forall answer, steps | Follows(WithAnswer(s, KeyOf(query, p), answer), op, steps, query, p) ::
               ReadsTheWrite(WithAnswer(s, KeyOf(query, p), answer), op, steps, query, p))
            <==> !Joinable(s, KeyOf(query, p))
  {
    var k, now := KeyOf(query, p), Ask(Apply(s.tree, op).value, query, p);
    if Joinable(s, k) {
      var other := if now.None? then Some(Node(DirNode)) else None;
      UndisturbedFollows(WithAnswer(s, k, other), op, query, p);
      assert !ReadsTheWrite(WithAnswer(s, k, other), op, Invalidating(InvalidationsOf(op)), query, p);
    } else {
      forall answer, steps | Follows(WithAnswer(s, k, answer), op, steps, query, p)
        ensures ReadsTheWrite(WithAnswer(s, k, answer), op, steps, query, p)
      {
        ReadYourWrites(s, op, steps, query, p);
      }
    }
  }

  lemma WriteApplies(t: Tree, p: Path, size: nat, mtime: int)
    requires p != [] && p in t && t[p].FileNode? && IsDir(t, Parent(p))
    ensures Apply(t, Write(p, size, mtime, false, true)) == Some(t[p := FileNode(size, mtime)])
  {
  }

  lemma WriteOvertakes(s: State, op: Op, p: Path)
    requires op.Write? && op.p == p && Apply(s.tree, op).Some? && s.cache == map[] && s.due == {}
    requires Joinable(s, KeyOf(Stat, p)) && s.flights == map[KeyOf(Stat, p) := s.flights[KeyOf(Stat, p)]]
    ensures Runs(s, Operating(op))
    ensures After(s, Operating(op)) ==
            State(Apply(s.tree, op).value, map[], map[KeyOf(Stat, p) := Overtaken(s.flights[KeyOf(Stat, p)])], {})
  {
    OperatingRuns(s, op);
    OperationCoversExactly(s.tree, op, Stat, p);
    ConcernsAnyOf(op, Stat, p);
    OneOvertaken(s.flights, KeyOf(Stat, p), InvalidationsOf(op));
  }

  lemma OneOvertaken(flights: map<Key, Flight>, k: Key, work: seq<Inval>)
    requires CoversAny(work, k) && k in flights && flights == map[k := flights[k]]
    ensures OvertakenBy(flights, work) == map[k := Overtaken(flights[k])]
    ensures Uncovered(map[], work) == map[]
  {
  }

  /**
   The failing case: on any tree with a file `p`, a stat has its answer when a write of `p` runs from
   start to end; the writer's own next stat misses, joins, and is told the size before the write.
   */
  lemma JoinedReadIsStale(t: Tree, p: Path, size: nat, mtime: int) returns (steps: seq<Step>)
    requires p != [] && p in t && t[p].FileNode? && IsDir(t, Parent(p)) && t[p] != FileNode(size, mtime)
    ensures Runs(Start(t), steps)
    ensures var s, k := After(Start(t), steps), KeyOf(Stat, p);
            && s.due == {} && k !in s.cache && s.tree == t[p := FileNode(size, mtime)]
            && s.flights == map[k := Answered(Some(Node(t[p])), true, false)]
            && CachedAsk(s, Stat, p) == Some(Node(t[p])) != Ask(s.tree, Stat, p)
  {
    var op, k := Write(p, size, mtime, false, true), KeyOf(Stat, p);
    var s1 := Do(Start(t), Begin(k));
    var s2 := Do(s1, ReadRemote(Stat, p));
    WriteApplies(t, p, size, mtime);
    WriteOvertakes(s2, op, p);
    RunsCons(s1, ReadRemote(Stat, p), Operating(op));
    RunsCons(Start(t), Begin(k), [ReadRemote(Stat, p)] + Operating(op));
    steps := [Begin(k)] + ([ReadRemote(Stat, p)] + Operating(op));
  }

  /** And when that fetch then stores its answer, the stat stays wrong with nothing due. */
  lemma RaceIsReal(t: Tree, p: Path, size: nat, mtime: int) returns (steps: seq<Step>)
    requires p != [] && p in t && t[p].FileNode? && IsDir(t, Parent(p)) && t[p] != FileNode(size, mtime)
    ensures Runs(Start(t), steps)
    ensures var s := After(Start(t), steps);
            && s.due == {} && s.flights == map[] && KeyOf(Stat, p) in s.cache
            && CachedAsk(s, Stat, p) != Ask(s.tree, Stat, p)
  {
    var k := KeyOf(Stat, p);
    steps := JoinedReadIsStale(t, p, size, mtime);
    var s := After(Start(t), steps);
    var s1 := Do(s, Store(k));
    RunsCons(s1, Finish(k), []);
    RunsCons(s, Store(k), [Finish(k)] + []);
    RunsConcat(Start(t), steps, [Store(k)] + ([Finish(k)] + []));
    steps := steps + ([Store(k)] + ([Finish(k)] + []));
  }
}
