/**
 The NFS backend's file system: its own two caches over the shared ones, which see no watch event,
 and the keys that its mutating calls remove. What the remote answers is a parameter.
 */
module NfsFileSystem {
  import opened Wrappers
  import opened Words
  import opened Paths
  import opened Tree
  import C = Cache
  import opened CachedFS
  import S = Staleness
  import Files
  import FileSpec

  const STAT_TTL := 5
  const STAT_MAX := 4096
  const DIR_TTL := 3
  const DIR_MAX := 512
  const SHARED_STAT_TTL := 30
  const SHARED_DIR_TTL := 15

  /** Every entry of `m` is one of `n`: eviction may have removed others. */
  predicate Within(m: C.Entries<Answer>, n: C.Entries<Answer>) {
    m.Keys <= n.Keys && forall k | k in m :: m[k] == n[k]
  }

  lemma StoredWithin(m: C.Entries<Answer>, maxSize: int, order: seq<string>, key: string, e: C.Entry<Answer>, now: int)
    requires C.Enumerates(order, m.Keys)
    ensures Within(C.Stored(m, maxSize, order, key, e, now), m[key := e])
  {
    C.EvictionKeeps(m, order, now);
  }

  /** The two caches and the answer after a read through both, as the methods below leave them. */
  function ReadBoth(outer: C.Entries<Answer>, outerMax: int, order: seq<string>, inner: C.Entries<Answer>,
                    innerMax: int, innerOrder: seq<string>, ttls: seq<nat>, key: string, base: Option<Answer>,
                    now: int)
      : (C.Entries<Answer>, C.Entries<Answer>, Option<Answer>)
    requires |ttls| == 2 && C.Enumerates(order, outer.Keys) && C.Enumerates(innerOrder, inner.Keys)
  {
    var (inner', said) := C.ReadCached(inner, innerMax, ttls[1], innerOrder, key, base, now);
    var (outer', answer) := C.ReadCached(outer, outerMax, ttls[0], order, key, said, now);
    (outer', if C.Lookup(outer, key, now).Some? then inner else inner', answer)
  }

  lemma ReadBothHit(outer: C.Entries<Answer>, outerMax: int, order: seq<string>, inner: C.Entries<Answer>,
                    innerMax: int, innerOrder: seq<string>, ttls: seq<nat>, key: string, base: Option<Answer>, now: int)
    requires |ttls| == 2 && C.Enumerates(order, outer.Keys) && C.Enumerates(innerOrder, inner.Keys)
    requires C.Lookup(outer, key, now).Some?
    ensures ReadBoth(outer, outerMax, order, inner, innerMax, innerOrder, ttls, key, base, now) ==
            (outer, inner, C.Lookup(outer, key, now))
  {
  }

  lemma ReadBothMiss(outer: C.Entries<Answer>, outerMax: int, order: seq<string>, inner: C.Entries<Answer>,
                     innerMax: int, innerOrder: seq<string>, ttls: seq<nat>, key: string, base: Option<Answer>,
                     now: int, n: C.Entries<Answer>, said: Option<Answer>)
    requires |ttls| == 2 && C.Enumerates(order, outer.Keys) && C.Enumerates(innerOrder, inner.Keys)
    requires C.Lookup(outer, key, now).None?
    requires (n, said) == C.ReadCached(inner, innerMax, ttls[1], innerOrder, key, base, now)
    ensures ReadBoth(outer, outerMax, order, inner, innerMax, innerOrder, ttls, key, base, now) ==
            (if said.None? then outer
             else C.Stored(outer, outerMax, order, key, C.Entry(said.value, now + ttls[0]), now), n, said)
  {
  }

  /** It is one read of the staleness model's two layers, which beyond that only lose entries to eviction. */
  lemma ReadBothIsReadThrough<W>(setup: S.Setup<W, Answer>, now: S.Moment<W>, outer: C.Entries<Answer>, outerMax: int,
                                 order: seq<string>, inner: C.Entries<Answer>, innerMax: int, innerOrder: seq<string>,
                                 key: string)
    requires |setup.ttls| == 2 && C.Enumerates(order, outer.Keys) && C.Enumerates(innerOrder, inner.Keys)
    ensures var both := ReadBoth(outer, outerMax, order, inner, innerMax, innerOrder, setup.ttls, key,
                                 setup.ask(now.world, key), now.time);
            var read := S.ReadThrough(setup, [outer, inner], now, 0, key);
            both.2 == read.1 && Within(both.0, read.0[0]) && Within(both.1, read.0[1])
  {
    var base := setup.ask(now.world, key);
    TwoLayers(setup, now, outer, inner, key);
    SharedReadIsReadThrough(setup, now, outer, inner, innerMax, innerOrder, key);
    var said := C.ReadCached(inner, innerMax, setup.ttls[1], innerOrder, key, base, now.time).1;
    if said.Some? {
      StoredWithin(outer, outerMax, order, key, C.Entry(said.value, now.time + setup.ttls[0]), now.time);
    }
  }

  /** A read of the shared cache alone is a read from the inner layer on. */
  lemma SharedReadIsReadThrough<W>(setup: S.Setup<W, Answer>, now: S.Moment<W>, outer: C.Entries<Answer>,
                                   inner: C.Entries<Answer>, innerMax: int, innerOrder: seq<string>, key: string)
    requires |setup.ttls| == 2 && C.Enumerates(innerOrder, inner.Keys)
    ensures var base := setup.ask(now.world, key);
            var shared := C.ReadCached(inner, innerMax, setup.ttls[1], innerOrder, key, base, now.time);
            var read := S.ReadThrough(setup, [outer, inner], now, 1, key);
            shared.1 == read.1 && Within(shared.0, read.0[1]) && read.0[0] == outer
  {
    var base := setup.ask(now.world, key);
    assert S.ReadThrough(setup, [outer, inner], now, 2, key) == ([outer, inner], base);
    if base.Some? {
      StoredWithin(inner, innerMax, innerOrder, key, C.Entry(base.value, now.time + setup.ttls[1]), now.time);
    }
  }

  /** A read through two layers, spelled out. */
  lemma TwoLayers<W>(setup: S.Setup<W, Answer>, now: S.Moment<W>, outer: C.Entries<Answer>, inner: C.Entries<Answer>,
                     key: string)
    requires |setup.ttls| == 2
    ensures var layers := S.ReadThrough(setup, [outer, inner], now, 0, key);
            var base, innerHit := setup.ask(now.world, key), C.Lookup(inner, key, now.time);
            var answer := if innerHit.Some? then innerHit else base;
            if C.Lookup(outer, key, now.time).Some? then layers == ([outer, inner], C.Lookup(outer, key, now.time))
            else
              && layers.1 == answer
              && layers.0[1] == (if innerHit.Some? || base.None? then inner
                                 else inner[key := C.Entry(base.value, now.time + setup.ttls[1])])
              && layers.0[0] == (if answer.None? then outer
                                 else outer[key := C.Entry(answer.value, now.time + setup.ttls[0])])
  {
    var layers := [outer, inner];
    assert S.ReadThrough(setup, layers, now, 2, key) == (layers, setup.ask(now.world, key));
    var (l, a) := S.ReadThrough(setup, layers, now, 1, key);
    assert l[0] == outer;
  }

  /** All that the mutating calls below do to a cache is to lose entries. */
  lemma InvalidationsLose(m: C.Entries<Answer>, query: Query, work: seq<Inval>, key: string)
    ensures Within(Kept(m, query, work), m) && Within(m - {key}, m)
  {
  }

  // ---------- Reads over a run ----------

  /** The two caches that one kind of read goes through, and the moments of the remote so far. */
  datatype Stack<W> = Stack(outer: C.Entries<Answer>, inner: C.Entries<Answer>, past: seq<S.Moment<W>>)

  datatype Limits = Limits(outerMax: int, innerMax: int)

  datatype Action<W> =
    | Tick(time: int)                                                  // the clock advances
    | Change(world: W)                                                 // the remote changes
    | ReadNfs(key: string, order: seq<string>, innerOrder: seq<string>)  // StatFile or ReadDirectory
    | ReadShared(key: string, innerOrder: seq<string>)                 // another read of the shared cache
    | Lose(outer: C.Entries<Answer>, inner: C.Entries<Answer>)         // any invalidation, which may never come

  predicate Possible<W>(s: Stack<W>, a: Action<W>) {
    s.past != [] &&
    match a
    case Tick(time) => time >= s.past[|s.past| - 1].time
    case Change(_) => true
    case ReadNfs(_, order, innerOrder) => C.Enumerates(order, s.outer.Keys) && C.Enumerates(innerOrder, s.inner.Keys)
    case ReadShared(_, innerOrder) => C.Enumerates(innerOrder, s.inner.Keys)
    case Lose(outer, inner) => Within(outer, s.outer) && Within(inner, s.inner)
  }

  /** The caches and the answer of a read, as the contracts of StatFile and ReadDirectory give them. */
  function Reading<W>(setup: S.Setup<W, Answer>, limits: Limits, s: Stack<W>, key: string, order: seq<string>,
                      innerOrder: seq<string>)
      : (C.Entries<Answer>, C.Entries<Answer>, Option<Answer>)
    requires |setup.ttls| == 2 && Possible(s, ReadNfs(key, order, innerOrder))
  {
    var now := s.past[|s.past| - 1];
    ReadBoth(s.outer, limits.outerMax, order, s.inner, limits.innerMax, innerOrder, setup.ttls, key,
             setup.ask(now.world, key), now.time)
  }

  function Perform<W>(setup: S.Setup<W, Answer>, limits: Limits, s: Stack<W>, a: Action<W>): Stack<W>
    requires |setup.ttls| == 2 && Possible(s, a)
  {
    var now := s.past[|s.past| - 1];
    match a
    case Tick(time) => s.(past := s.past + [S.Moment(time, now.world)])
    case Change(world) => s.(past := s.past + [S.Moment(now.time, world)])
    case ReadNfs(key, order, innerOrder) =>
      var read := Reading(setup, limits, s, key, order, innerOrder);
      s.(outer := read.0, inner := read.1)
    case ReadShared(key, innerOrder) =>
      s.(inner := C.ReadCached(s.inner, limits.innerMax, setup.ttls[1], innerOrder, key, setup.ask(now.world, key),
                               now.time).0)
    case Lose(outer, inner) => s.(outer := outer, inner := inner)
  }

  predicate Works<W>(setup: S.Setup<W, Answer>, limits: Limits, s: Stack<W>, actions: seq<Action<W>>)
    requires |setup.ttls| == 2
    decreases |actions|
  {
    actions != [] ==>
      Possible(s, actions[0]) && Works(setup, limits, Perform(setup, limits, s, actions[0]), actions[1..])
  }

  function Worked<W>(setup: S.Setup<W, Answer>, limits: Limits, s: Stack<W>, actions: seq<Action<W>>): Stack<W>
    requires |setup.ttls| == 2 && Works(setup, limits, s, actions)
    decreases |actions|
  {
    if actions == [] then s else Worked(setup, limits, Perform(setup, limits, s, actions[0]), actions[1..])
  }

  function Opened<W>(t: int, world: W): Stack<W> {
    Stack(map[], map[], [S.Moment(t, world)])
  }

  /** The two caches as layers of the staleness model. */
  function Layers<W>(s: Stack<W>): S.State<W, Answer> {
    S.State([s.outer, s.inner], s.past)
  }

  lemma FreshWithin<W>(setup: S.Setup<W, Answer>, past: seq<S.Moment<W>>, i: nat, m: C.Entries<Answer>,
                       n: C.Entries<Answer>)
    requires i <= |setup.ttls| && S.Fresh(setup, past, i, n) && Within(m, n)
    ensures S.Fresh(setup, past, i, m)
  {
  }

  lemma LayersKeep<W>(setup: S.Setup<W, Answer>, s: Stack<W>, s': Stack<W>)
    requires |setup.ttls| == 2 && S.Inv(setup, Layers(s)) && s'.past == s.past
    requires S.Fresh(setup, s.past, 0, s'.outer) && S.Fresh(setup, s.past, 1, s'.inner)
    ensures S.Inv(setup, Layers(s'))
  {
  }

  /** What a read from layer `i` leaves in the two layers, and what it answers. */
  lemma LayersRead<W>(setup: S.Setup<W, Answer>, s: Stack<W>, i: nat, key: string)
    returns (o: C.Entries<Answer>, n: C.Entries<Answer>)
    requires |setup.ttls| == 2 && S.Inv(setup, Layers(s)) && i <= 1
    ensures var (layers, answer) := S.ReadThrough(setup, [s.outer, s.inner], s.past[|s.past| - 1], i, key);
            && layers == [o, n] && S.Fresh(setup, s.past, 0, o) && S.Fresh(setup, s.past, 1, n)
            && (answer.Some? ==>
                  S.WasAnswer(setup, s.past, key, answer.value, s.past[|s.past| - 1].time - S.Age(setup.ttls[i..])))
  {
    S.ReadFresh(setup, Layers(s), i, key);
    var (layers, _) := S.ReadThrough(setup, [s.outer, s.inner], s.past[|s.past| - 1], i, key);
    o, n := layers[0], layers[1];
  }

  lemma {:induction false} ReadKeeps<W>(setup: S.Setup<W, Answer>, limits: Limits, s: Stack<W>, key: string,
                                        order: seq<string>, innerOrder: seq<string>)
    requires |setup.ttls| == 2 && S.Inv(setup, Layers(s)) && Possible(s, ReadNfs(key, order, innerOrder))
    ensures S.Inv(setup, Layers(Perform(setup, limits, s, ReadNfs(key, order, innerOrder))))
    ensures var answer, now := Reading(setup, limits, s, key, order, innerOrder).2, s.past[|s.past| - 1];
            answer.Some? ==> S.WasAnswer(setup, s.past, key, answer.value, now.time - S.Age(setup.ttls))
  {
    var now := s.past[|s.past| - 1];
    var (outer, inner, answer) := Reading(setup, limits, s, key, order, innerOrder);
    ReadBothIsReadThrough(setup, now, s.outer, limits.outerMax, order, s.inner, limits.innerMax, innerOrder, key);
    var o, n := LayersRead(setup, s, 0, key);
    FreshWithin(setup, s.past, 0, outer, o);
    FreshWithin(setup, s.past, 1, inner, n);
    assert setup.ttls[0..] == setup.ttls;
    LayersKeep(setup, s, s.(outer := outer, inner := inner));
  }

  lemma {:induction false} ReadSharedKeeps<W>(setup: S.Setup<W, Answer>, limits: Limits, s: Stack<W>, key: string,
                                              innerOrder: seq<string>)
    requires |setup.ttls| == 2 && S.Inv(setup, Layers(s)) && Possible(s, ReadShared(key, innerOrder))
    ensures S.Inv(setup, Layers(Perform(setup, limits, s, ReadShared(key, innerOrder))))
  {
    var s' := Perform(setup, limits, s, ReadShared(key, innerOrder));
    SharedReadIsReadThrough(setup, s.past[|s.past| - 1], s.outer, s.inner, limits.innerMax, innerOrder, key);
    var o, n := LayersRead(setup, s, 1, key);
    FreshWithin(setup, s.past, 1, s'.inner, n);
    LayersKeep(setup, s, s');
  }

  lemma ActionKeeps<W>(setup: S.Setup<W, Answer>, limits: Limits, s: Stack<W>, a: Action<W>)
    requires |setup.ttls| == 2 && S.Inv(setup, Layers(s)) && Possible(s, a)
    ensures S.Inv(setup, Layers(Perform(setup, limits, s, a)))
  {
    assert S.Fresh(setup, s.past, 0, Layers(s).layers[0]) && S.Fresh(setup, s.past, 1, Layers(s).layers[1]);
    match a
    case ReadNfs(key, order, innerOrder) => ReadKeeps(setup, limits, s, key, order, innerOrder);
    case ReadShared(key, innerOrder) => ReadSharedKeeps(setup, limits, s, key, innerOrder);
    case Lose(outer, inner) =>
      FreshWithin(setup, s.past, 0, outer, s.outer);
      FreshWithin(setup, s.past, 1, inner, s.inner);
    case Tick(time) => S.InvStep(setup, Layers(s), S.Tick(time));
    case Change(world) => S.InvStep(setup, Layers(s), S.Change(world));
  }

  lemma {:induction false} RunKeeps<W>(setup: S.Setup<W, Answer>, limits: Limits, s: Stack<W>, actions: seq<Action<W>>)
    requires |setup.ttls| == 2 && S.Inv(setup, Layers(s)) && Works(setup, limits, s, actions)
    ensures S.Inv(setup, Layers(Worked(setup, limits, s, actions)))
    decreases |actions|
  {
    if actions != [] {
      ActionKeeps(setup, limits, s, actions[0]);
      RunKeeps(setup, limits, Perform(setup, limits, s, actions[0]), actions[1..]);
    }
  }

  /**
   Bounded staleness of the NFS reads themselves: from empty caches, after any sequence of reads, reads of
   the shared caches, changes of the remote, invalidations or their absence, with clock, expiry and
   eviction, a successful StatFile answers what the remote said at some moment of the last 35 seconds, a
   successful ReadDirectory of the last 18.
   */
  lemma NfsReadsAreRecent<W>(setup: S.Setup<W, Answer>, limits: Limits, t: int, world: W, actions: seq<Action<W>>,
                             key: string, order: seq<string>, innerOrder: seq<string>)
    returns (n: nat)
    requires setup.ttls == S.NFS_STAT_TTLS || setup.ttls == S.NFS_DIR_TTLS
    requires Works(setup, limits, Opened(t, world), actions)
    requires Possible(Worked(setup, limits, Opened(t, world), actions), ReadNfs(key, order, innerOrder))
    ensures var s := Worked(setup, limits, Opened(t, world), actions);
            var answer, now := Reading(setup, limits, s, key, order, innerOrder).2, s.past[|s.past| - 1].time;
            answer.Some? ==>
              && n < |s.past|
              && now - (if setup.ttls == S.NFS_STAT_TTLS then 35 else 18) <= s.past[n].time <= now
              && setup.ask(s.past[n].world, key) == answer
  {
    RunKeeps(setup, limits, Opened(t, world), actions);
    var s := Worked(setup, limits, Opened(t, world), actions);
    ReadKeeps(setup, limits, s, key, order, innerOrder);
    S.NfsAges();
    var answer, now := Reading(setup, limits, s, key, order, innerOrder).2, s.past[|s.past| - 1];
    assert now == S.Now(Layers(s));
    n := 0;
    if answer.Some? {
      n :|
        && 0 <= n < |s.past| && s.past[n].time >= now.time - S.Age(setup.ttls)
        && setup.ask(s.past[n].world, key) == Some(answer.value);
    }
  }

  // ---------- What is cached stays cached ----------

  /** A read of both caches is a read through the outer one, over a read through the inner one if that is needed. */
  lemma ReadBothReadsThrough(outer: C.Entries<Answer>, outerMax: int, order: seq<string>, inner: C.Entries<Answer>,
                             innerMax: int, innerOrder: seq<string>, ttls: seq<nat>, key: string, base: Option<Answer>,
                             now: int)
    returns (said: Option<Answer>)
    requires |ttls| == 2 && C.Enumerates(order, outer.Keys) && C.Enumerates(innerOrder, inner.Keys)
    ensures var (o, n, told) := ReadBoth(outer, outerMax, order, inner, innerMax, innerOrder, ttls, key, base, now);
            && C.ReadsThrough(outer, outerMax, ttls[0], order, key, said, now, o, told)
            && (if C.Lookup(outer, key, now).Some? then n == inner
                else told == said && C.ReadsThrough(inner, innerMax, ttls[1], innerOrder, key, base, now, n, said))
  {
    said := C.ReadCached(inner, innerMax, ttls[1], innerOrder, key, base, now).1;
    C.ReadCachedReadsThrough(inner, innerMax, ttls[1], innerOrder, key, base, now);
    C.ReadCachedReadsThrough(outer, outerMax, ttls[0], order, key, said, now);
  }

  /** What a read of both leaves: the answer for a lifetime in each cache that missed. */
  lemma ReadBothStores(outer: C.Entries<Answer>, outerMax: int, order: seq<string>, inner: C.Entries<Answer>,
                       innerMax: int, innerOrder: seq<string>, ttls: seq<nat>, key: string, base: Option<Answer>,
                       now: int)
    requires |ttls| == 2 && C.Enumerates(order, outer.Keys) && C.Enumerates(innerOrder, inner.Keys)
    ensures var (o, n, told) := ReadBoth(outer, outerMax, order, inner, innerMax, innerOrder, ttls, key, base, now);
            Stores(outer, inner, ttls, key, base, now, o, n, told)
  {
    var _ := ReadBothReadsThrough(outer, outerMax, order, inner, innerMax, innerOrder, ttls, key, base, now);
  }

  predicate Stores(outer: C.Entries<Answer>, inner: C.Entries<Answer>, ttls: seq<nat>, key: string,
                   base: Option<Answer>, now: int, o: C.Entries<Answer>, n: C.Entries<Answer>, told: Option<Answer>)
    requires |ttls| == 2
  {
    var hit, innerHit := C.Lookup(outer, key, now), C.Lookup(inner, key, now);
    && (hit.Some? ==> told == hit && o == outer && n == inner)
    && (hit.None? ==> told == if innerHit.Some? then innerHit else base)
    && (hit.None? && told.Some? ==> key in o && o[key] == C.Entry(told.value, now + ttls[0]))
    && (hit.None? && innerHit.None? && base.Some? ==> key in n && n[key] == C.Entry(base.value, now + ttls[1]))
  }

  function LayerOf<W>(s: Stack<W>, layer: nat): C.Entries<Answer> {
    if layer == 0 then s.outer else s.inner
  }

  function NowOf<W>(s: Stack<W>): int
    requires s.past != []
  {
    s.past[|s.past| - 1].time
  }

  /** The action neither invalidates nor evicts what the layer holds under `key`. */
  predicate Spares<W>(limits: Limits, s: Stack<W>, a: Action<W>, layer: nat, key: string)
    requires Possible(s, a)
  {
    match a
    case ReadNfs(_, order, innerOrder) =>
      if layer == 0 then C.Spared(s.outer, limits.outerMax, order, NowOf(s), key)
      else C.Spared(s.inner, limits.innerMax, innerOrder, NowOf(s), key)
    case ReadShared(_, innerOrder) => layer == 0 || C.Spared(s.inner, limits.innerMax, innerOrder, NowOf(s), key)
    case Lose(outer, inner) => if layer == 0 then key in outer else key in inner
    case _ => true
  }

  predicate AllSpare<W>(setup: S.Setup<W, Answer>, limits: Limits, s: Stack<W>, actions: seq<Action<W>>, layer: nat,
                        key: string)
    requires |setup.ttls| == 2 && Works(setup, limits, s, actions)
    decreases |actions|
  {
    actions != [] ==>
      && Spares(limits, s, actions[0], layer, key)
      && AllSpare(setup, limits, Perform(setup, limits, s, actions[0]), actions[1..], layer, key)
  }

  lemma {:induction false} EntrySpared<W>(setup: S.Setup<W, Answer>, limits: Limits, s: Stack<W>, a: Action<W>,
                                          layer: nat, key: string)
    requires |setup.ttls| == 2 && Possible(s, a) && Spares(limits, s, a, layer, key)
    requires key in LayerOf(s, layer) && NowOf(s) <= LayerOf(s, layer)[key].expiresAt
    ensures var s' := Perform(setup, limits, s, a);
            key in LayerOf(s', layer) && LayerOf(s', layer)[key] == LayerOf(s, layer)[key]
  {
    var now := s.past[|s.past| - 1];
    match a
    case ReadNfs(k, order, innerOrder) =>
      var base := setup.ask(now.world, k);
      var said := ReadBothReadsThrough(s.outer, limits.outerMax, order, s.inner, limits.innerMax, innerOrder,
                                       setup.ttls, k, base, now.time);
      var (o, n, told) := Reading(setup, limits, s, k, order, innerOrder);
      if layer == 0 {
        C.LiveEntryStays(s.outer, limits.outerMax, setup.ttls[0], order, k, said, now.time, o, told, key);
      } else if C.Lookup(s.outer, k, now.time).None? {
        C.LiveEntryStays(s.inner, limits.innerMax, setup.ttls[1], innerOrder, k, base, now.time, n, said, key);
      }
    case ReadShared(k, innerOrder) =>
      var base := setup.ask(now.world, k);
      C.ReadCachedReadsThrough(s.inner, limits.innerMax, setup.ttls[1], innerOrder, k, base, now.time);
      if layer != 0 {
        var (n, told) := C.ReadCached(s.inner, limits.innerMax, setup.ttls[1], innerOrder, k, base, now.time);
        C.LiveEntryStays(s.inner, limits.innerMax, setup.ttls[1], innerOrder, k, base, now.time, n, told, key);
      }
    case _ =>
  }

  lemma {:induction false} TimeGrows<W>(setup: S.Setup<W, Answer>, limits: Limits, s: Stack<W>, actions: seq<Action<W>>)
    requires |setup.ttls| == 2 && Works(setup, limits, s, actions) && s.past != []
    ensures var s' := Worked(setup, limits, s, actions);
            s'.past != [] && NowOf(s) <= NowOf(s')
    decreases |actions|
  {
    if actions != [] { TimeGrows(setup, limits, Perform(setup, limits, s, actions[0]), actions[1..]); }
  }

  lemma {:induction false} EntryStays<W>(setup: S.Setup<W, Answer>, limits: Limits, s: Stack<W>,
                                         actions: seq<Action<W>>, layer: nat, key: string)
    requires |setup.ttls| == 2 && Works(setup, limits, s, actions) && AllSpare(setup, limits, s, actions, layer, key)
    requires s.past != [] && key in LayerOf(s, layer)
    requires var s' := Worked(setup, limits, s, actions);
             s'.past != [] && NowOf(s') <= LayerOf(s, layer)[key].expiresAt
    ensures var s' := Worked(setup, limits, s, actions);
            key in LayerOf(s', layer) && LayerOf(s', layer)[key] == LayerOf(s, layer)[key]
    decreases |actions|
  {
    if actions != [] {
      var next := Perform(setup, limits, s, actions[0]);
      TimeGrows(setup, limits, s, actions);
      EntrySpared(setup, limits, s, actions[0], layer, key);
      EntryStays(setup, limits, next, actions[1..], layer, key);
    }
  }

  lemma OuterAnswers<W>(setup: S.Setup<W, Answer>, limits: Limits, s: Stack<W>, key: string, order: seq<string>,
                        innerOrder: seq<string>)
    requires |setup.ttls| == 2 && Possible(s, ReadNfs(key, order, innerOrder)) && C.Lookup(s.outer, key, NowOf(s)).Some?
    ensures Reading(setup, limits, s, key, order, innerOrder).2 == C.Lookup(s.outer, key, NowOf(s))
  {
    ReadBothStores(s.outer, limits.outerMax, order, s.inner, limits.innerMax, innerOrder, setup.ttls, key,
                   setup.ask(s.past[|s.past| - 1].world, key), NowOf(s));
  }

  /**
   Caching itself, through two layers: when a read misses a layer and is answered, then after any actions
   that neither invalidate nor evict that layer's entry, the layer answers the key the same during its
   lifetime, whatever the remote would say by then; and from the outer layer so does the whole read.
   */
  lemma {:induction false} ReadsRepeat<W>(setup: S.Setup<W, Answer>, limits: Limits, s: Stack<W>, key: string,
                                          order: seq<string>, innerOrder: seq<string>, actions: seq<Action<W>>,
                                          layer: nat, told: Option<Answer>)
    requires |setup.ttls| == 2 && layer < 2 && Possible(s, ReadNfs(key, order, innerOrder))
    requires C.Lookup(s.outer, key, NowOf(s)).None? && C.Lookup(LayerOf(s, layer), key, NowOf(s)).None?
    requires told == Reading(setup, limits, s, key, order, innerOrder).2 && told.Some?
    requires var s1 := Perform(setup, limits, s, ReadNfs(key, order, innerOrder));
             Works(setup, limits, s1, actions) && AllSpare(setup, limits, s1, actions, layer, key)
    requires var s2 := Worked(setup, limits, Perform(setup, limits, s, ReadNfs(key, order, innerOrder)), actions);
             s2.past != [] && NowOf(s2) <= NowOf(s) + setup.ttls[layer]
    ensures var inner := C.Lookup(s.inner, key, NowOf(s));
            told == if inner.Some? then inner else setup.ask(s.past[|s.past| - 1].world, key)
    ensures var s2 := Worked(setup, limits, Perform(setup, limits, s, ReadNfs(key, order, innerOrder)), actions);
            && C.Lookup(LayerOf(s2, layer), key, NowOf(s2)) == told
            && forall o, i | layer == 0 && Possible(s2, ReadNfs(key, o, i)) ::
                 Reading(setup, limits, s2, key, o, i).2 == told
  {
    ReadBothStores(s.outer, limits.outerMax, order, s.inner, limits.innerMax, innerOrder, setup.ttls, key,
                   setup.ask(s.past[|s.past| - 1].world, key), NowOf(s));
    var s1 := Perform(setup, limits, s, ReadNfs(key, order, innerOrder));
    EntryStays(setup, limits, s1, actions, layer, key);
    var s2 := Worked(setup, limits, s1, actions);
    forall o, i | layer == 0 && Possible(s2, ReadNfs(key, o, i))
      ensures Reading(setup, limits, s2, key, o, i).2 == told
    {
      OuterAnswers(setup, limits, s2, key, o, i);
    }
  }

  class FileSystem {
    const remote: CachedFS
    const root: string
    const chrootAt: string
    const statCache: C.Cache<Answer>
    const dirCache: C.Cache<Answer>

    ghost predicate Valid()
      reads this, statCache, dirCache, remote, remote.statCache, remote.dirCache
    {
      && remote.Valid() && statCache.Valid() && dirCache.Valid()
      && statCache != dirCache && {statCache, dirCache} !! {remote.statCache, remote.dirCache}
      && statCache.ttl == STAT_TTL && dirCache.ttl == DIR_TTL
      && remote.statCache.ttl == SHARED_STAT_TTL && remote.dirCache.ttl == SHARED_DIR_TTL
    }

    constructor (remote: CachedFS, root: string, ghost now: int)
      requires remote.Valid()
      requires remote.statCache.ttl == SHARED_STAT_TTL && remote.dirCache.ttl == SHARED_DIR_TTL
      ensures Valid() && this.remote == remote && this.root == TrimSlashes(root) && chrootAt == ""
      ensures fresh(statCache) && fresh(dirCache) && statCache.entries == map[] && dirCache.entries == map[]
    {
      this.remote := remote;
      this.root := TrimSlashes(root);
      chrootAt := "";
      statCache := new C.Cache(STAT_TTL, STAT_MAX, now);
      dirCache := new C.Cache(DIR_TTL, DIR_MAX, now);
    }

    function Abs(name: string): string {
      NfsAbs(root, chrootAt, name)
    }

    method StatByKey(key: string, base: Option<Answer>, now: int, order: seq<string>, innerOrder: seq<string>)
      returns (r: Option<Answer>)
      requires Valid() && now >= statCache.clock && now >= remote.statCache.clock
      requires C.Enumerates(order, statCache.entries.Keys) && C.Enumerates(innerOrder, remote.statCache.entries.Keys)
      modifies statCache, remote.statCache
      ensures Valid()
      ensures (statCache.entries, remote.statCache.entries, r) ==
              ReadBoth(old(statCache.entries), statCache.maxSize, order,
                       old(remote.statCache.entries), remote.statCache.maxSize, innerOrder,
                       S.NFS_STAT_TTLS, key, base, now)
    {
      ghost var outer, inner := statCache.entries, remote.statCache.entries;
      r := statCache.Get(key, now);
      if r.Some? {
        ReadBothHit(outer, statCache.maxSize, order, inner, remote.statCache.maxSize, innerOrder, S.NFS_STAT_TTLS, key,
                    base, now);
        return;
      }
      r := remote.StatPath(key, base, now, innerOrder);
      ReadBothMiss(outer, statCache.maxSize, order, inner, remote.statCache.maxSize, innerOrder, S.NFS_STAT_TTLS, key,
                   base, now, remote.statCache.entries, r);
      if r.Some? {
        statCache.Set(key, r.value, now, order);
      }
    }

    method StatFile(name: string, base: Option<Answer>, now: int, order: seq<string>, innerOrder: seq<string>)
      returns (r: Option<Answer>)
      requires Valid() && now >= statCache.clock && now >= remote.statCache.clock
      requires C.Enumerates(order, statCache.entries.Keys) && C.Enumerates(innerOrder, remote.statCache.entries.Keys)
      modifies statCache, remote.statCache
      ensures Valid()
      ensures (statCache.entries, remote.statCache.entries, r) ==
              ReadBoth(old(statCache.entries), statCache.maxSize, order,
                       old(remote.statCache.entries), remote.statCache.maxSize, innerOrder,
                       S.NFS_STAT_TTLS, Abs(name), base, now)
      ensures Stores(old(statCache.entries), old(remote.statCache.entries), S.NFS_STAT_TTLS, Abs(name), base, now,
                     statCache.entries, remote.statCache.entries, r)
    {
      ReadBothStores(statCache.entries, statCache.maxSize, order, remote.statCache.entries, remote.statCache.maxSize,
                     innerOrder, S.NFS_STAT_TTLS, Abs(name), base, now);
      r := StatByKey(Abs(name), base, now, order, innerOrder);
    }

    method ListByKey(key: string, base: Option<Answer>, now: int, order: seq<string>, innerOrder: seq<string>)
      returns (r: Option<Answer>)
      requires Valid() && now >= dirCache.clock && now >= remote.dirCache.clock
      requires C.Enumerates(order, dirCache.entries.Keys) && C.Enumerates(innerOrder, remote.dirCache.entries.Keys)
      modifies dirCache, remote.dirCache
      ensures Valid()
      ensures (dirCache.entries, remote.dirCache.entries, r) ==
              ReadBoth(old(dirCache.entries), dirCache.maxSize, order,
                       old(remote.dirCache.entries), remote.dirCache.maxSize, innerOrder,
                       S.NFS_DIR_TTLS, key, base, now)
    {
      ghost var outer, inner := dirCache.entries, remote.dirCache.entries;
      r := dirCache.Get(key, now);
      if r.Some? {
        ReadBothHit(outer, dirCache.maxSize, order, inner, remote.dirCache.maxSize, innerOrder, S.NFS_DIR_TTLS, key,
                    base, now);
        return;
      }
      r := remote.ReadDirPath(key, base, now, innerOrder);
      ReadBothMiss(outer, dirCache.maxSize, order, inner, remote.dirCache.maxSize, innerOrder, S.NFS_DIR_TTLS, key,
                   base, now, remote.dirCache.entries, r);
      if r.Some? {
        dirCache.Set(key, r.value, now, order);
      }
    }

    method ReadDirectory(name: string, base: Option<Answer>, now: int, order: seq<string>, innerOrder: seq<string>)
      returns (r: Option<Answer>)
      requires Valid() && now >= dirCache.clock && now >= remote.dirCache.clock
      requires C.Enumerates(order, dirCache.entries.Keys) && C.Enumerates(innerOrder, remote.dirCache.entries.Keys)
      modifies dirCache, remote.dirCache
      ensures Valid()
      ensures (dirCache.entries, remote.dirCache.entries, r) ==
              ReadBoth(old(dirCache.entries), dirCache.maxSize, order,
                       old(remote.dirCache.entries), remote.dirCache.maxSize, innerOrder,
                       S.NFS_DIR_TTLS, Abs(name), base, now)
      ensures Stores(old(dirCache.entries), old(remote.dirCache.entries), S.NFS_DIR_TTLS, Abs(name), base, now,
                     dirCache.entries, remote.dirCache.entries, r)
    {
      ReadBothStores(dirCache.entries, dirCache.maxSize, order, remote.dirCache.entries, remote.dirCache.maxSize,
                     innerOrder, S.NFS_DIR_TTLS, Abs(name), base, now);
      r := ListByKey(Abs(name), base, now, order, innerOrder);
    }

    /** Forget the stat of a name and the listing that holds it: what Remove and a file's Close do. */
    method Forget(name: string)
      requires Valid()
      modifies statCache, dirCache
      ensures Valid()
      ensures statCache.entries == old(statCache.entries) - {Abs(name)}
      ensures dirCache.entries == old(dirCache.entries) - {Abs(Dir(name))}
    {
      statCache.Invalidate(Abs(name));
      dirCache.Invalidate(Abs(Dir(name)));
    }

    /** Close of a file opened under `name`: only a write-back that succeeds touches the caches. */
    method CloseFile(f: Files.NfsFile, name: string, accepted: bool)
      returns (e: FileSpec.IoError, flushed: Option<seq<byte>>)
      requires Valid() && f.Valid()
      modifies f, statCache, dirCache, remote.statCache, remote.dirCache
      ensures Valid() && f.Valid()
      ensures (f.View(), FileSpec.Out([], 0, e, flushed)) == FileSpec.DoClose(old(f.View()), accepted)
      ensures if flushed.Some? && accepted then
                && statCache.entries == old(statCache.entries) - {Abs(name)}
                && dirCache.entries == old(dirCache.entries) - {Abs(Dir(name))}
                && remote.statCache.entries == Kept(old(remote.statCache.entries), Stat, InvalidatePath(Abs(name)))
                && remote.dirCache.entries == Kept(old(remote.dirCache.entries), List, InvalidatePath(Abs(name)))
              else
                && statCache.entries == old(statCache.entries) && dirCache.entries == old(dirCache.entries)
                && remote.statCache.entries == old(remote.statCache.entries)
                && remote.dirCache.entries == old(remote.dirCache.entries)
    {
      e, flushed := f.Close(accepted);
      if flushed.Some? && accepted {
        remote.Mutated(Abs(name), true);
        Forget(name);
      }
    }

    method Remove(name: string, succeeded: bool)
      requires Valid()
      modifies statCache, dirCache, remote.statCache, remote.dirCache
      ensures Valid()
      ensures succeeded ==>
                && statCache.entries == old(statCache.entries) - {Abs(name)}
                && dirCache.entries == old(dirCache.entries) - {Abs(Dir(name))}
                && remote.statCache.entries == Kept(old(remote.statCache.entries), Stat, InvalidatePath(Abs(name)))
                && remote.dirCache.entries == Kept(old(remote.dirCache.entries), List, InvalidatePath(Abs(name)))
      ensures !succeeded ==>
                && statCache.entries == old(statCache.entries) && dirCache.entries == old(dirCache.entries)
                && remote.statCache.entries == old(remote.statCache.entries)
                && remote.dirCache.entries == old(remote.dirCache.entries)
    {
      if succeeded {
        remote.Mutated(Abs(name), true);
        Forget(name);
      }
    }

    /** MkdirAll leaves the stat cache alone. */
    method MkdirAll(name: string, succeeded: bool)
      requires Valid()
      modifies dirCache, remote.statCache, remote.dirCache
      ensures Valid()
      ensures succeeded ==>
                && dirCache.entries == old(dirCache.entries) - {Abs(Dir(name))}
                && remote.statCache.entries == Kept(old(remote.statCache.entries), Stat, InvalidatePath(Abs(name)))
                && remote.dirCache.entries == Kept(old(remote.dirCache.entries), List, InvalidatePath(Abs(name)))
      ensures !succeeded ==>
                && dirCache.entries == old(dirCache.entries)
                && remote.statCache.entries == old(remote.statCache.entries)
                && remote.dirCache.entries == old(remote.dirCache.entries)
    {
      if succeeded {
        remote.Mutated(Abs(name), true);
        dirCache.Invalidate(Abs(Dir(name)));
      }
    }

    method Rename(from: string, to: string, succeeded: bool)
      requires Valid()
      modifies statCache, dirCache, remote.statCache, remote.dirCache
      ensures Valid()
      ensures succeeded ==>
                && statCache.entries == old(statCache.entries) - {Abs(from)} - {Abs(to)}
                && dirCache.entries == old(dirCache.entries) - {Abs(Dir(from))} - {Abs(Dir(to))}
                && var work := InvalidatePath(Abs(from)) + InvalidatePath(Abs(to));
                   && remote.statCache.entries == Kept(old(remote.statCache.entries), Stat, work)
                   && remote.dirCache.entries == Kept(old(remote.dirCache.entries), List, work)
      ensures !succeeded ==>
                && statCache.entries == old(statCache.entries) && dirCache.entries == old(dirCache.entries)
                && remote.statCache.entries == old(remote.statCache.entries)
                && remote.dirCache.entries == old(remote.dirCache.entries)
    {
      if succeeded {
        remote.Renamed(Abs(from), Abs(to), true);
        Forget(from);
        Forget(to);
      }
    }
  }
}
