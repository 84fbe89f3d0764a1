/**
 The metadata cache: a map with an expiry per entry and a size limit. The ghost history of the
 class records what was asked of it; `Valid` ties the entries to that history. Map iteration order,
 which the runtime chooses, is a parameter.
 */
module Cache {
  import opened Wrappers

  datatype Entry<+V> = Entry(value: V, expiresAt: int)

  type Entries<+V> = map<string, Entry<V>>

  predicate Expired<V>(e: Entry<V>, now: int) {
    now > e.expiresAt
  }

  function Lookup<V>(m: Entries<V>, key: string, now: int): Option<V> {
    if key in m && !Expired(m[key], now) then Some(m[key].value) else None
  }

  function WithoutPrefix<V>(m: Entries<V>, prefix: string): Entries<V> {
    map k | k in m && !(prefix <= k) :: m[k]
  }

  // ---------- Eviction ----------

  predicate Enumerates(order: seq<string>, keys: set<string>) {
    && (forall k <- keys :: k in order)
    && (forall k <- order :: k in keys)
    && forall i, j | 0 <= i < j < |order| :: order[i] != order[j]
  }

  /** evictOne's loop over the rest of an iteration order, holding the oldest key so far. */
  function Scan<V>(m: Entries<V>, rest: seq<string>, now: int, oldest: string): (r: Option<string>)
    requires (forall k <- rest :: k in m) && (oldest != "" ==> oldest in m)
    ensures r.Some? ==> r.value in m
  {
    if rest == [] then if oldest == "" then None else Some(oldest)
    else if Expired(m[rest[0]], now) then Some(rest[0])
    else Scan(m, rest[1..], now,
              if oldest == "" || m[rest[0]].expiresAt < m[oldest].expiresAt then rest[0] else oldest)
  }

  /** The key that evictOne deletes when the map is iterated in `order`. */
  function Victim<V>(m: Entries<V>, order: seq<string>, now: int): (r: Option<string>)
    requires Enumerates(order, m.Keys)
    ensures r.Some? ==> r.value in m
  {
    Scan(m, order, now, "")
  }

  predicate HasExpired<V>(m: Entries<V>, now: int) {
    exists k | k in m :: Expired(m[k], now)
  }

  predicate Earliest<V>(m: Entries<V>, k: string) {
    k in m && forall l | l in m :: m[k].expiresAt <= m[l].expiresAt
  }

  /** The eviction rule: an expired entry if there is one, else one with the earliest expiry. */
  predicate RightVictim<V>(m: Entries<V>, now: int, v: Option<string>) {
    v.Some? && v.value in m && (if HasExpired(m, now) then Expired(m[v.value], now) else Earliest(m, v.value))
  }

  /** Some entry is expired, or some entry under a non-empty key is among the oldest. */
  predicate Evictable<V>(m: Entries<V>, now: int) {
    HasExpired(m, now) || exists k | k in m :: k != "" && Earliest(m, k)
  }

  lemma {:induction false} ScanExpired<V>(m: Entries<V>, rest: seq<string>, now: int, oldest: string)
    requires (forall k <- rest :: k in m) && (oldest != "" ==> oldest in m)
    requires exists k <- rest :: Expired(m[k], now)
    ensures Scan(m, rest, now, oldest).Some? && Expired(m[Scan(m, rest, now, oldest).value], now)
  {
    if !Expired(m[rest[0]], now) {
      var k :| k in rest && Expired(m[k], now);
      assert k in rest[1..];
      ScanExpired(m, rest[1..], now,
                  if oldest == "" || m[rest[0]].expiresAt < m[oldest].expiresAt then rest[0] else oldest);
    }
  }

  lemma {:induction false} ScanEarliest<V>(m: Entries<V>, rest: seq<string>, now: int, oldest: string, first: string)
    requires (forall k <- rest :: k in m) && (oldest != "" ==> oldest in m)
    requires !HasExpired(m, now) && first != "" && Earliest(m, first)
    requires first in rest || (oldest != "" && Earliest(m, oldest))
    ensures Scan(m, rest, now, oldest).Some? && Earliest(m, Scan(m, rest, now, oldest).value)
  {
    if rest != [] {
      var next := if oldest == "" || m[rest[0]].expiresAt < m[oldest].expiresAt then rest[0] else oldest;
      ScanEarliest(m, rest[1..], now, next, first);
    }
  }

  /** With the empty key last and strictly oldest, the loop forgets that it has found anything. */
  lemma {:induction false} ScanForgets<V>(m: Entries<V>, rest: seq<string>, now: int, oldest: string)
    requires rest != [] && (forall k <- rest :: k in m) && (oldest != "" ==> oldest in m)
    requires !HasExpired(m, now) && rest[|rest| - 1] == "" && (forall i | 0 <= i < |rest| - 1 :: rest[i] != "")
    requires forall k | k in m && k != "" :: m[""].expiresAt < m[k].expiresAt
    ensures Scan(m, rest, now, oldest) == None
  {
    if |rest| > 1 {
      var next := if oldest == "" || m[rest[0]].expiresAt < m[oldest].expiresAt then rest[0] else oldest;
      ScanForgets(m, rest[1..], now, next);
    }
  }

  /**
   evictOne follows its rule for every iteration order exactly when some entry is expired or some
   non-empty key is among the oldest; keys that are absolute paths always meet this.
   */
  lemma EvictionExactly<V>(m: Entries<V>, now: int)
    requires m != map[]
    ensures (forall order | Enumerates(order, m.Keys) :: RightVictim(m, now, Victim(m, order, now)))
            <==> Evictable(m, now)
  {
    if Evictable(m, now) {
      forall order | Enumerates(order, m.Keys) ensures RightVictim(m, now, Victim(m, order, now)) {
        if HasExpired(m, now) {
          var k :| k in m && Expired(m[k], now);
          assert k in order;
          ScanExpired(m, order, now, "");
        } else {
          var k :| k in m && k != "" && Earliest(m, k);
          assert k in order;
          ScanEarliest(m, order, now, "", k);
        }
      }
    } else {
      EmptyIsOldest(m);
      var order := Listed(m.Keys - {""});
      var all := order + [""];
      assert forall k <- m.Keys :: k == "" || k in order;
      assert Enumerates(all, m.Keys);
      ScanForgets(m, all, now, "");
      assert !RightVictim(m, now, Victim(m, all, now));
    }
  }

  lemma EmptyIsOldest<V>(m: Entries<V>)
    requires m != map[] && !exists k | k in m :: k != "" && Earliest(m, k)
    ensures "" in m && forall k | k in m && k != "" :: m[""].expiresAt < m[k].expiresAt
  {
    var k := OneEarliest(m, m.Keys);
    forall l | l in m && l != "" ensures m[""].expiresAt < m[l].expiresAt {
      assert !Earliest(m, l);
    }
  }

  lemma OneEarliest<V>(m: Entries<V>, keys: set<string>) returns (k: string)
    requires keys != {} && keys <= m.Keys
    ensures k in keys && forall l <- keys :: m[k].expiresAt <= m[l].expiresAt
    decreases keys
  {
    k :| k in keys;
    if keys != {k} {
      var l := OneEarliest(m, keys - {k});
      if m[l].expiresAt < m[k].expiresAt { k := l; }
    }
  }

  lemma Listed(keys: set<string>) returns (order: seq<string>)
    ensures Enumerates(order, keys)
    decreases keys
  {
    if keys == {} {
      order := [];
    } else {
      var k :| k in keys;
      var rest := Listed(keys - {k});
      order := [k] + rest;
    }
  }

  lemma NamedKeysEvictable<V>(m: Entries<V>, now: int)
    requires m != map[] && "" !in m
    ensures Evictable(m, now)
  {
    var k := OneEarliest(m, m.Keys);
    assert Earliest(m, k);
  }

  function AfterEviction<V>(m: Entries<V>, order: seq<string>, now: int): Entries<V>
    requires Enumerates(order, m.Keys)
  {
    var v := Victim(m, order, now);
    if v.Some? then m - {v.value} else m
  }

  lemma EvictionKeeps<V>(m: Entries<V>, order: seq<string>, now: int)
    requires Enumerates(order, m.Keys)
    ensures var kept := AfterEviction(m, order, now); kept.Keys <= m.Keys && forall k | k in kept :: kept[k] == m[k]
  {
  }

  /** The entries after Set. */
  function Stored<V>(m: Entries<V>, maxSize: int, order: seq<string>, key: string, e: Entry<V>, now: int): Entries<V>
    requires Enumerates(order, m.Keys)
  {
    (if |m| >= maxSize then AfterEviction(m, order, now) else m)[key := e]
  }

  /** A read-through of one cache: a hit, or what the base says, stored unless it is an error. */
  function ReadCached<V>(m: Entries<V>, maxSize: int, ttl: int, order: seq<string>, key: string, base: Option<V>,
                         now: int)
      : (Entries<V>, Option<V>)
    requires Enumerates(order, m.Keys)
  {
    var hit := Lookup(m, key, now);
    if hit.Some? then (m, hit)
    else if base.None? then (m, None)
    else (Stored(m, maxSize, order, key, Entry(base.value, now + ttl), now), base)
  }

  /**
   What Set changes: the key has its fresh entry; of the others nothing goes below the limit, and at the
   limit exactly the victim; what stays is unchanged.
   */
  lemma StoredExactly<V>(m: Entries<V>, maxSize: int, order: seq<string>, key: string, e: Entry<V>, now: int, k: string)
    requires Enumerates(order, m.Keys)
    ensures var m' := Stored(m, maxSize, order, key, e, now);
            && key in m' && m'[key] == e
            && (k != key ==> (k in m' <==> k in m && !(|m| >= maxSize && Victim(m, order, now) == Some(k))))
            && (k != key && k in m' ==> m'[k] == m[k])
  {
  }

  /**
   What a read through one cache does: a live entry answers and nothing changes; otherwise a success of
   the base answers and stands in the cache for a lifetime, at the price of the victim at most; an error
   changes nothing.
   */
  ghost predicate ReadsThrough<V>(m: Entries<V>, maxSize: int, ttl: int, order: seq<string>, key: string,
                                  base: Option<V>, now: int, m': Entries<V>, told: Option<V>)
    requires Enumerates(order, m.Keys)
  {
    var live := key in m && now <= m[key].expiresAt;
    && (live ==> told == Some(m[key].value) && m' == m)
    && (!live && base.None? ==> told == None && m' == m)
    && (!live && base.Some? ==>
          && told == base && key in m' && m'[key] == Entry(base.value, now + ttl)
          && (forall k | k in m' && k != key :: k in m && m'[k] == m[k])
          && (forall k | k in m && k !in m' :: |m| >= maxSize && Victim(m, order, now) == Some(k)))
  }

  lemma ReadCachedReadsThrough<V(!new)>(m: Entries<V>, maxSize: int, ttl: int, order: seq<string>, key: string,
                                        base: Option<V>, now: int)
    requires Enumerates(order, m.Keys)
    ensures var (m', told) := ReadCached(m, maxSize, ttl, order, key, base, now);
            ReadsThrough(m, maxSize, ttl, order, key, base, now, m', told)
  {
    if base.Some? {
      forall k { StoredExactly(m, maxSize, order, key, Entry(base.value, now + ttl), now, k); }
    }
  }

  /** No entry under `name` is thrown out by a Set under another key. */
  predicate Spared<V>(m: Entries<V>, maxSize: int, order: seq<string>, now: int, name: string)
    requires Enumerates(order, m.Keys)
  {
    |m| < maxSize || Victim(m, order, now) != Some(name)
  }

  /** Whatever is read, a live entry that is not the victim stays as it is. */
  lemma LiveEntryStays<V>(m: Entries<V>, maxSize: int, ttl: int, order: seq<string>, key: string, base: Option<V>,
                          now: int, m': Entries<V>, told: Option<V>, name: string)
    requires Enumerates(order, m.Keys) && ReadsThrough(m, maxSize, ttl, order, key, base, now, m', told)
    requires name in m && now <= m[name].expiresAt && Spared(m, maxSize, order, now, name)
    ensures name in m' && m'[name] == m[name]
  {
  }

  function Capacity(maxSize: int): int {
    if maxSize < 1 then 1 else maxSize
  }

  /** Set keeps the size within the limit when no key is empty; a limit below one acts as one. */
  lemma StoredSize<V>(m: Entries<V>, maxSize: int, order: seq<string>, key: string, e: Entry<V>, now: int)
    requires Enumerates(order, m.Keys) && "" !in m && |m| <= Capacity(maxSize)
    ensures |Stored(m, maxSize, order, key, e, now)| <= Capacity(maxSize)
  {
    var kept := if |m| >= maxSize then AfterEviction(m, order, now) else m;
    if |m| >= maxSize && m != map[] {
      EvictionShrinks(m, order, now);
    }
    UpdateSize(kept, key, e);
  }

  lemma EvictionShrinks<V>(m: Entries<V>, order: seq<string>, now: int)
    requires Enumerates(order, m.Keys) && "" !in m && m != map[]
    ensures |AfterEviction(m, order, now)| == |m| - 1
  {
    NamedKeysEvictable(m, now);
    EvictionExactly(m, now);
    var v := Victim(m, order, now);
    assert RightVictim(m, now, v);
    assert (m - {v.value}).Keys == m.Keys - {v.value};
    assert |(m - {v.value}).Keys| == |m.Keys| - 1;
  }

  lemma UpdateSize<V>(m: Entries<V>, key: string, e: Entry<V>)
    ensures |m[key := e]| <= |m| + 1
  {
    assert m[key := e].Keys == m.Keys + {key};
  }

  // ---------- History ----------

  datatype Event<+V> = Put(key: string, value: V, at: int) | Gone(key: string) | GonePrefix(prefix: string)

  /** The last Set of `key` that nothing has invalidated since, with its time. */
  function LastPut<V>(h: seq<Event<V>>, key: string): Option<(V, int)> {
    if h == [] then None
    else match h[|h| - 1]
      case Put(k, v, t) => if k == key then Some((v, t)) else LastPut(h[..|h| - 1], key)
      case Gone(k) => if k == key then None else LastPut(h[..|h| - 1], key)
      case GonePrefix(p) => if p <= key then None else LastPut(h[..|h| - 1], key)
  }

  lemma LastPutSnoc<V>(h: seq<Event<V>>, e: Event<V>, key: string)
    ensures LastPut(h + [e], key) == match e
            case Put(k, v, t) => if k == key then Some((v, t)) else LastPut(h, key)
            case Gone(k) => if k == key then None else LastPut(h, key)
            case GonePrefix(p) => if p <= key then None else LastPut(h, key)
  {
    assert (h + [e])[..|h|] == h;
  }

  predicate NamedKeys<V>(h: seq<Event<V>>) {
    forall i | 0 <= i < |h| :: h[i].Put? ==> h[i].key != ""
  }

  lemma Recorded<V>(h: seq<Event<V>>, e: Event<V>)
    ensures forall k :: LastPut(h + [e], k) == match e
            case Put(l, v, t) => if l == k then Some((v, t)) else LastPut(h, k)
            case Gone(l) => if l == k then None else LastPut(h, k)
            case GonePrefix(p) => if p <= k then None else LastPut(h, k)
    ensures NamedKeys(h + [e]) ==> NamedKeys(h)
  {
    forall k { LastPutSnoc(h, e, k); }
    assert forall i | 0 <= i < |h| :: (h + [e])[i] == h[i];
  }

  lemma SmallerSet(a: set<string>, b: set<string>)
    requires a <= b
    ensures |a| <= |b|
  {
    assert b == a + (b - a);
  }

  /** Every entry is the last put of its key, and only eviction can make such a put disappear. */
  ghost predicate Agrees<V>(m: Entries<V>, h: seq<Event<V>>, evicted: set<string>, ttl: int, clock: int) {
    && (forall k | k in m :: LastPut(h, k) == Some((m[k].value, m[k].expiresAt - ttl)) && m[k].expiresAt - ttl <= clock)
    && (forall k | LastPut(h, k).Some? :: k in m || k in evicted)
  }

  predicate Bounded<V>(m: Entries<V>, h: seq<Event<V>>, maxSize: int) {
    NamedKeys(h) ==> "" !in m && |m| <= Capacity(maxSize)
  }

  /** A hit is the last value put and not invalidated since, at most `ttl` old; a miss has one of three reasons. */
  lemma LookupAgrees<V>(m: Entries<V>, h: seq<Event<V>>, evicted: set<string>, ttl: int, clock: int, key: string,
                        now: int)
    requires Agrees(m, h, evicted, ttl, clock) && clock <= now
    ensures var last := LastPut(h, key);
            match Lookup(m, key, now)
            case Some(v) => last.Some? && last.value.0 == v && last.value.1 <= now <= last.value.1 + ttl
            case None => last.None? || key in evicted || now > last.value.1 + ttl
  {
    if key in m { assert LastPut(h, key) == Some((m[key].value, m[key].expiresAt - ttl)); }
  }

  lemma AgreesPut<V>(m: Entries<V>, kept: Entries<V>, h: seq<Event<V>>, evicted: set<string>, ttl: int, clock: int,
                     key: string, value: V, now: int)
    requires Agrees(m, h, evicted, ttl, clock) && clock <= now
    requires kept.Keys <= m.Keys && forall k | k in kept :: kept[k] == m[k]
    ensures Agrees(kept[key := Entry(value, now + ttl)], h + [Put(key, value, now)],
                   evicted + (m.Keys - kept.Keys) - {key}, ttl, now)
  {
    Recorded(h, Put(key, value, now));
  }

  lemma BoundedPut<V>(m: Entries<V>, h: seq<Event<V>>, maxSize: int, order: seq<string>, key: string, e: Entry<V>,
                      now: int)
    requires Bounded(m, h, maxSize) && Enumerates(order, m.Keys)
    ensures Bounded(Stored(m, maxSize, order, key, e, now), h + [Put(key, e.value, now)], maxSize)
  {
    var h' := h + [Put(key, e.value, now)];
    if NamedKeys(h') {
      Recorded(h, Put(key, e.value, now));
      assert h'[|h|].key != "";
      StoredSize(m, maxSize, order, key, e, now);
    }
  }

  /** Without expired entries, eviction takes the least recently put key, up to ties. */
  lemma EvictsLeastRecentlyPut<V>(m: Entries<V>, h: seq<Event<V>>, evicted: set<string>, ttl: int, clock: int, now: int,
                                  v: string, l: string)
    requires Agrees(m, h, evicted, ttl, clock) && !HasExpired(m, now) && RightVictim(m, now, Some(v)) && l in m
    ensures LastPut(h, v).Some? && LastPut(h, l).Some? && LastPut(h, v).value.1 <= LastPut(h, l).value.1
  {
    assert Earliest(m, v);
  }

  lemma PutKeeps<V>(m: Entries<V>, maxSize: int, order: seq<string>, h: seq<Event<V>>, evicted: set<string>, ttl: int,
                    clock: int, key: string, value: V, now: int)
    requires Agrees(m, h, evicted, ttl, clock) && Bounded(m, h, maxSize) && clock <= now && Enumerates(order, m.Keys)
    ensures var stored := Stored(m, maxSize, order, key, Entry(value, now + ttl), now);
            var h' := h + [Put(key, value, now)];
            Agrees(stored, h', evicted + (m.Keys - stored.Keys) - {key}, ttl, now) && Bounded(stored, h', maxSize)
  {
    var kept := if |m| >= maxSize then AfterEviction(m, order, now) else m;
    EvictionKeeps(m, order, now);
    AgreesPut(m, kept, h, evicted, ttl, clock, key, value, now);
    BoundedPut(m, h, maxSize, order, key, Entry(value, now + ttl), now);
    var stored := kept[key := Entry(value, now + ttl)];
    assert evicted + (m.Keys - kept.Keys) - {key} == evicted + (m.Keys - stored.Keys) - {key};
  }

  /** Removing the keys that an invalidation names keeps agreement and bound. */
  lemma AgreesGone<V>(m: Entries<V>, kept: Entries<V>, h: seq<Event<V>>, e: Event<V>, evicted: set<string>, ttl: int,
                      clock: int, maxSize: int)
    requires Agrees(m, h, evicted, ttl, clock) && Bounded(m, h, maxSize) && !e.Put?
    requires kept == map k | k in m && !(if e.Gone? then k == e.key else e.prefix <= k) :: m[k]
    ensures Agrees(kept, h + [e], evicted, ttl, clock) && Bounded(kept, h + [e], maxSize)
  {
    Recorded(h, e);
    assert kept.Keys <= m.Keys;
    SmallerSet(kept.Keys, m.Keys);
  }

  class Cache<V> {
    var entries: Entries<V>
    const ttl: int
    const maxSize: int
    ghost var history: seq<Event<V>>
    ghost var evicted: set<string>  // keys evicted since they were last put
    ghost var clock: int

    ghost predicate Valid()
      reads this
    {
      Agrees(entries, history, evicted, ttl, clock) && Bounded(entries, history, maxSize)
    }

    constructor (ttl: int, maxSize: int, ghost now: int)
      ensures Valid() && entries == map[] && history == [] && evicted == {} && clock == now
      ensures this.ttl == ttl && this.maxSize == maxSize
    {
      this.ttl, this.maxSize := ttl, maxSize;
      entries, history, evicted, clock := map[], [], {}, now;
    }

    method Get(key: string, now: int) returns (r: Option<V>)
      ensures r == Lookup(entries, key, now)
    {
      if key !in entries || now > entries[key].expiresAt {
        return None;
      }
      return Some(entries[key].value);
    }

    method Set(key: string, value: V, now: int, order: seq<string>)
      requires Valid() && now >= clock && Enumerates(order, entries.Keys)
      modifies this
      ensures Valid() && clock == now
      ensures entries == Stored(old(entries), maxSize, order, key, Entry(value, now + ttl), now)
      ensures history == old(history) + [Put(key, value, now)]
    {
      PutKeeps(entries, maxSize, order, history, evicted, ttl, clock, key, value, now);
      ghost var before := entries;
      if |entries| >= maxSize {
        EvictOne(now, order);
      }
      entries := entries[key := Entry(value, now + ttl)];
      history := history + [Put(key, value, now)];
      evicted := evicted + (before.Keys - entries.Keys) - {key};
      clock := now;
    }

    method EvictOne(now: int, order: seq<string>)
      requires Enumerates(order, entries.Keys)
      modifies this`entries
      ensures entries == AfterEviction(old(entries), order, now)
    {
      var oldest := "";
      for i := 0 to |order|
        invariant entries == old(entries) && (oldest != "" ==> oldest in entries)
        invariant forall k <- order[i..] :: k in entries
        invariant Scan(entries, order[i..], now, oldest) == Victim(entries, order, now)
      {
        var k := order[i];
        assert order[i..][0] == k && order[i..][1..] == order[i + 1..];
        if now > entries[k].expiresAt {
          entries := entries - {k};
          return;
        }
        if oldest == "" || entries[k].expiresAt < entries[oldest].expiresAt {
          oldest := k;
        }
      }
      if oldest != "" {
        entries := entries - {oldest};
      }
    }

    method Invalidate(key: string)
      requires Valid()
      modifies this
      ensures Valid() && clock == old(clock)
      ensures entries == old(entries) - {key}
      ensures history == old(history) + [Gone(key)] && evicted == old(evicted)
    {
      entries := entries - {key};
      AgreesGone(old(entries), entries, history, Gone(key), evicted, ttl, clock, maxSize);
      history := history + [Gone(key)];
    }

    method InvalidatePrefix(prefix: string)
      requires Valid()
      modifies this
      ensures Valid() && clock == old(clock)
      ensures entries == WithoutPrefix(old(entries), prefix)
      ensures history == old(history) + [GonePrefix(prefix)] && evicted == old(evicted)
    {
      var keys := entries.Keys;
      while keys != {}
        invariant keys <= old(entries).Keys
        invariant history == old(history) && evicted == old(evicted) && clock == old(clock)
        invariant entries == map k | k in old(entries) && (k in keys || !(prefix <= k)) :: old(entries)[k]
        decreases keys
      {
        var k :| k in keys;
        keys := keys - {k};
        if |k| >= |prefix| && k[..|prefix|] == prefix {
          entries := entries - {k};
        }
      }
      AgreesGone(old(entries), entries, history, GonePrefix(prefix), evicted, ttl, clock, maxSize);
      history := history + [GonePrefix(prefix)];
    }
  }
}
