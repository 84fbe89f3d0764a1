/**
 Read-through caches stacked on a remote that changes at any time: how old an answer can be. The
 theorem is about any number of layers; the NFS backend stacks two.
 */
module Staleness {
  import opened Wrappers
  import C = Cache

  /** The remote at a moment. */
  datatype Moment<+W> = Moment(time: int, world: W)

  /** `layers[0]` is the outermost cache; `past` the moments seen so far, the last being the present. */
  datatype State<W, !A> = State(layers: seq<C.Entries<A>>, past: seq<Moment<W>>)

  datatype Setup<!W, !A> = Setup(ttls: seq<nat>, ask: (W, string) -> Option<A>)

  datatype Step<W> =
    | Tick(time: int)                     // the clock advances
    | Change(world: W)                    // the remote changes
    | Read(key: string)                   // a read through all layers
    | Remove(layer: nat, key: string)     // eviction or invalidation, which may or may not happen

  function Now<W, A>(s: State<W, A>): Moment<W>
    requires s.past != []
  {
    s.past[|s.past| - 1]
  }

  function Age(ttls: seq<nat>): nat {
    if ttls == [] then 0 else ttls[0] + Age(ttls[1..])
  }

  /** A read from layer `i` inward: the first live entry, or the remote; every layer passed is filled. */
  function ReadThrough<W, A>(setup: Setup<W, A>, layers: seq<C.Entries<A>>, now: Moment<W>, i: nat, key: string)
      : (r: (seq<C.Entries<A>>, Option<A>))
    requires |layers| == |setup.ttls| && i <= |layers|
    ensures |r.0| == |layers|
    decreases |layers| - i
  {
    if i == |layers| then (layers, setup.ask(now.world, key))
    else if C.Lookup(layers[i], key, now.time).Some? then (layers, C.Lookup(layers[i], key, now.time))
    else
      var (inner, answer) := ReadThrough(setup, layers, now, i + 1, key);
      if answer.None? then (inner, None)
      else (inner[i := inner[i][key := C.Entry(answer.value, now.time + setup.ttls[i])]], answer)
  }

  predicate Enabled<W, A>(setup: Setup<W, A>, s: State<W, A>, step: Step<W>) {
    s.past != [] && |s.layers| == |setup.ttls|
    && (step.Tick? ==> step.time >= Now(s).time)
    && (step.Remove? ==> step.layer < |s.layers|)
  }

  function Do<W, A>(setup: Setup<W, A>, s: State<W, A>, step: Step<W>): State<W, A>
    requires Enabled(setup, s, step)
  {
    match step
    case Tick(time) => s.(past := s.past + [Moment(time, Now(s).world)])
    case Change(world) => s.(past := s.past + [Moment(Now(s).time, world)])
    case Read(key) => s.(layers := ReadThrough(setup, s.layers, Now(s), 0, key).0)
    case Remove(layer, key) => s.(layers := s.layers[layer := s.layers[layer] - {key}])
  }

  predicate Runs<W, A>(setup: Setup<W, A>, s: State<W, A>, steps: seq<Step<W>>)
    decreases |steps|
  {
    steps != [] ==> Enabled(setup, s, steps[0]) && Runs(setup, Do(setup, s, steps[0]), steps[1..])
  }

  function After<W, A>(setup: Setup<W, A>, s: State<W, A>, steps: seq<Step<W>>): State<W, A>
    requires Runs(setup, s, steps)
    decreases |steps|
  {
    if steps == [] then s else After(setup, Do(setup, s, steps[0]), steps[1..])
  }

  // ---------- The bound ----------

  /** At some past moment not before `since`, the remote's answer for `key` was `a`. */
  predicate WasAnswer<W, A(==)>(setup: Setup<W, A>, past: seq<Moment<W>>, key: string, a: A, since: int) {
    exists n | 0 <= n < |past| :: past[n].time >= since && setup.ask(past[n].world, key) == Some(a)
  }

  /** An entry of layer `i` that lives until t was the remote's answer at most Age(ttls[i..]) before t. */
  predicate Fresh<W, A(==)>(setup: Setup<W, A>, past: seq<Moment<W>>, i: nat, m: C.Entries<A>)
    requires i <= |setup.ttls|
  {
    forall k | k in m :: WasAnswer(setup, past, k, m[k].value, m[k].expiresAt - Age(setup.ttls[i..]))
  }

  predicate Inv<W, A(==)>(setup: Setup<W, A>, s: State<W, A>) {
    && |s.layers| == |setup.ttls|
    && s.past != []
    && (forall n | 0 <= n < |s.past| :: s.past[n].time <= Now(s).time)
    && forall i | 0 <= i < |s.layers| :: Fresh(setup, s.past, i, s.layers[i])
  }

  lemma AgeStep(ttls: seq<nat>, i: nat)
    requires i < |ttls|
    ensures Age(ttls[i..]) == ttls[i] + Age(ttls[i + 1..])
  {
    assert ttls[i..][1..] == ttls[i + 1..];
  }

  /** A read from layer `i` answers with something at most Age(ttls[i..]) old, and keeps every layer fresh. */
  lemma {:induction false} ReadFresh<W, A>(setup: Setup<W, A>, s: State<W, A>, i: nat, key: string)
    requires Inv(setup, s) && i <= |s.layers|
    ensures var (layers, answer) := ReadThrough(setup, s.layers, Now(s), i, key);
            && (answer.Some? ==> WasAnswer(setup, s.past, key, answer.value, Now(s).time - Age(setup.ttls[i..])))
            && forall n | 0 <= n < |layers| :: Fresh(setup, s.past, n, layers[n])
    decreases |s.layers| - i
  {
    if i == |s.layers| {
      assert setup.ttls[i..] == [];
      assert s.past[|s.past| - 1] == Now(s);
    } else if C.Lookup(s.layers[i], key, Now(s).time).Some? {
      assert Fresh(setup, s.past, i, s.layers[i]);
      var e := s.layers[i][key];
      var n :| 0 <= n < |s.past| && s.past[n].time >= e.expiresAt - Age(setup.ttls[i..])
               && setup.ask(s.past[n].world, key) == Some(e.value);
    } else {
      ReadFresh(setup, s, i + 1, key);
      AgeStep(setup.ttls, i);
      var (inner, answer) := ReadThrough(setup, s.layers, Now(s), i + 1, key);
      if answer.Some? {
        var n :| 0 <= n < |s.past| && s.past[n].time >= Now(s).time - Age(setup.ttls[i + 1..])
                 && setup.ask(s.past[n].world, key) == answer;
        assert Fresh(setup, s.past, i, inner[i]);
        assert WasAnswer(setup, s.past, key, answer.value, Now(s).time + setup.ttls[i] - Age(setup.ttls[i..]));
      }
    }
  }

  lemma FreshLater<W, A>(setup: Setup<W, A>, past: seq<Moment<W>>, now: Moment<W>, i: nat, m: C.Entries<A>)
    requires i <= |setup.ttls| && Fresh(setup, past, i, m)
    ensures Fresh(setup, past + [now], i, m)
  {
    forall k | k in m
      ensures WasAnswer(setup, past + [now], k, m[k].value, m[k].expiresAt - Age(setup.ttls[i..]))
    {
      var n :| 0 <= n < |past| && past[n].time >= m[k].expiresAt - Age(setup.ttls[i..])
               && setup.ask(past[n].world, k) == Some(m[k].value);
      assert (past + [now])[n] == past[n];
    }
  }

  lemma InvStep<W, A>(setup: Setup<W, A>, s: State<W, A>, step: Step<W>)
    requires Inv(setup, s) && Enabled(setup, s, step)
    ensures Inv(setup, Do(setup, s, step))
  {
    var s' := Do(setup, s, step);
    if step.Read? {
      ReadFresh(setup, s, 0, step.key);
    } else if step.Remove? {
      assert Fresh(setup, s.past, step.layer, s.layers[step.layer]);
      assert Fresh(setup, s.past, step.layer, s'.layers[step.layer]);
    } else {
      forall i | 0 <= i < |s.layers| ensures Fresh(setup, s'.past, i, s'.layers[i]) {
        FreshLater(setup, s.past, Now(s'), i, s.layers[i]);
      }
    }
  }

  lemma {:induction false} RunInv<W, A>(setup: Setup<W, A>, s: State<W, A>, steps: seq<Step<W>>)
    requires Inv(setup, s) && Runs(setup, s, steps)
    ensures Inv(setup, After(setup, s, steps))
    decreases |steps|
  {
    if steps != [] {
      InvStep(setup, s, steps[0]);
      RunInv(setup, Do(setup, s, steps[0]), steps[1..]);
    }
  }

  function Start<W, A>(setup: Setup<W, A>, t: int, world: W): State<W, A> {
    State(seq(|setup.ttls|, i => map[]), [Moment(t, world)])
  }

  /**
   Bounded staleness, over every run and whether or not any invalidation ever fires: a successful read
   at time t returns what the remote answered at some moment within [t - sum of the ttls, t].
   */
  lemma AnswersAreRecent<W, A>(setup: Setup<W, A>, t: int, world: W, steps: seq<Step<W>>, key: string)
    returns (n: nat)
    requires Runs(setup, Start(setup, t, world), steps)
    ensures var s := After(setup, Start(setup, t, world), steps);
            && s.past != [] && |s.layers| == |setup.ttls|
            && var answer := ReadThrough(setup, s.layers, Now(s), 0, key).1;
               answer.Some? ==>
                 && n < |s.past|
                 && Now(s).time - Age(setup.ttls) <= s.past[n].time <= Now(s).time
                 && setup.ask(s.past[n].world, key) == answer
  {
    RunInv(setup, Start(setup, t, world), steps);
    var s := After(setup, Start(setup, t, world), steps);
    ReadFresh(setup, s, 0, key);
    assert setup.ttls[0..] == setup.ttls;
    var answer := ReadThrough(setup, s.layers, Now(s), 0, key).1;
    n := 0;
    if answer.Some? {
      n :|
        && 0 <= n < |s.past| && s.past[n].time >= Now(s).time - Age(setup.ttls)
        && setup.ask(s.past[n].world, key) == answer;
    }
  }

  // ---------- The NFS backend ----------

  /** Lifetimes in seconds: the NFS layer's own caches over the shared ones. */
  const NFS_STAT_TTLS: seq<nat> := [5, 30]
  const NFS_DIR_TTLS: seq<nat> := [3, 15]

  lemma NfsAges()
    ensures Age(NFS_STAT_TTLS) == 35 && Age(NFS_DIR_TTLS) == 18
  {
    assert NFS_STAT_TTLS[1..] == [30] && NFS_DIR_TTLS[1..] == [15];
    assert Age([30]) == 30 && Age([15]) == 15 by { assert [30][1..] == [] && [15][1..] == []; }
  }

  lemma RunsCons<W, A>(setup: Setup<W, A>, s: State<W, A>, step: Step<W>, rest: seq<Step<W>>)
    requires Enabled(setup, s, step) && Runs(setup, Do(setup, s, step), rest)
    ensures Runs(setup, s, [step] + rest) && After(setup, s, [step] + rest) == After(setup, Do(setup, s, step), rest)
  {
    assert ([step] + rest)[1..] == rest;
  }

  /** The world is a number, and every key's answer is that number. */
  function Counter(): Setup<nat, nat> {
    Setup(NFS_STAT_TTLS, (w: nat, k: string) => Some(w))
  }

  /** A read of "a" through two layers that miss. */
  lemma MissBoth(s: State<nat, nat>)
    requires |s.layers| == 2 && s.past != [] && s.layers == [map[], map[]] && Now(s).time == 0
    ensures ReadThrough(Counter(), s.layers, Now(s), 0, "a").0 ==
            [map["a" := C.Entry(Now(s).world, 5)], map["a" := C.Entry(Now(s).world, 30)]]
  {
    var setup, m := Counter(), Now(s);
    assert setup.ttls[0] == 5 && setup.ttls[1] == 30;
    assert ReadThrough(setup, s.layers, m, 2, "a") == (s.layers, Some(m.world));
    assert ReadThrough(setup, s.layers, m, 1, "a").0 == [map[], map["a" := C.Entry(m.world, 30)]];
  }

  /** A read of "a" through an outer layer whose entry is over and an inner one whose entry is not. */
  lemma HitInner(s: State<nat, nat>, v: nat, outer: int, inner: int)
    requires |s.layers| == 2 && s.past != [] && outer < Now(s).time <= inner
    requires s.layers == [map["a" := C.Entry(v, outer)], map["a" := C.Entry(v, inner)]]
    ensures ReadThrough(Counter(), s.layers, Now(s), 0, "a").0 ==
            [map["a" := C.Entry(v, Now(s).time + 5)], map["a" := C.Entry(v, inner)]]
  {
    var setup := Counter();
    assert ReadThrough(setup, s.layers, Now(s), 1, "a") == (s.layers, Some(v));
    assert map["a" := C.Entry(v, outer)]["a" := C.Entry(v, Now(s).time + 5)] == map["a" := C.Entry(v, Now(s).time + 5)];
  }

  /** The bound is attained: a run after which NFS answers with what the remote has not said for 35 seconds. */
  lemma ThirtyFiveSecondsHappen() returns (steps: seq<Step<nat>>)
    ensures Runs(Counter(), Start(Counter(), 0, 0), steps)
    ensures var s := After(Counter(), Start(Counter(), 0, 0), steps);
            && s.past != [] && |s.layers| == 2
            && var answer := ReadThrough(Counter(), s.layers, Now(s), 0, "a").1;
               answer.Some? && forall n | 0 <= n < |s.past| && Counter().ask(s.past[n].world, "a") == answer ::
                 s.past[n].time <= Now(s).time - 35
  {
    var setup := Counter();
    var s0 := Start(setup, 0, 0);
    assert s0.layers == [map[], map[]];
    MissBoth(s0);
    var s1 := Do(setup, s0, Read("a"));
    var s2 := Do(setup, s1, Change(1));
    var s3 := Do(setup, s2, Tick(30));
    HitInner(s3, 0, 5, 30);
    var s4 := Do(setup, s3, Read("a"));
    var s5 := Do(setup, s4, Tick(35));
    assert s5.past == [Moment(0, 0), Moment(0, 1), Moment(30, 1), Moment(35, 1)];
    assert s5.layers[0] == map["a" := C.Entry(0, 35)];
    steps := FiveSteps(setup, s0, Read("a"), Change(1), Tick(30), Read("a"), Tick(35));
  }

  lemma FiveSteps<W, A>(setup: Setup<W, A>, s0: State<W, A>, a: Step<W>, b: Step<W>, c: Step<W>, d: Step<W>, e: Step<W>)
    returns (steps: seq<Step<W>>)
    requires Enabled(setup, s0, a) && Enabled(setup, Do(setup, s0, a), b)
    requires Enabled(setup, Do(setup, Do(setup, s0, a), b), c)
    requires Enabled(setup, Do(setup, Do(setup, Do(setup, s0, a), b), c), d)
    requires Enabled(setup, Do(setup, Do(setup, Do(setup, Do(setup, s0, a), b), c), d), e)
    ensures Runs(setup, s0, steps)
    ensures After(setup, s0, steps) == Do(setup, Do(setup, Do(setup, Do(setup, Do(setup, s0, a), b), c), d), e)
  {
    var s1 := Do(setup, s0, a);
    var s2 := Do(setup, s1, b);
    var s3 := Do(setup, s2, c);
    var s4 := Do(setup, s3, d);
    RunsCons(setup, s4, e, []);
    RunsCons(setup, s3, d, [e] + []);
    RunsCons(setup, s2, c, [d] + ([e] + []));
    RunsCons(setup, s1, b, [c] + ([d] + ([e] + [])));
    RunsCons(setup, s0, a, [b] + ([c] + ([d] + ([e] + []))));
    steps := [a] + ([b] + ([c] + ([d] + ([e] + []))));
  }
}
