/**
 Requests, responses and events over one connection, as interleaved atomic steps of any number of
 Call and Listen activations and of the dispatch loop. `Table` holds the fields that the source
 guards with a mutex; the class at the end runs the critical sections against the functions on Table.
 */
module Ipc {
  import opened Wrappers
  import opened Words
  import opened Vql
  import opened Serialize

  const REQUEST_PROMISE := 100
  const REQUEST_EVENT_LISTEN := 102
  const REQUEST_EVENT_DISPOSE := 103
  const RESPONSE_INITIALIZE := 200
  const RESPONSE_SUCCESS := 201
  const RESPONSE_ERROR := 202
  const RESPONSE_ERROR_OBJ := 203
  const RESPONSE_EVENT := 204

  datatype Response = Response(kind: int, id: int, body: Value)

  datatype Message = Ignored | Initialize | Reply(response: Response) | Event(id: int, body: Value)

  /** toInt: floats are cut toward zero. */
  function ToInt(v: Value): Option<int> {
    match v
    case Int(n) => Some(n)
    case Float(x) => Some(if x >= 0.0 then x.Floor else -(-x).Floor)
    case _ => None
  }

  /** A number in a header is cut toward zero, by less than one; nothing else passes for a number. */
  lemma CutTowardZero(v: Value)
    ensures ToInt(v).Some? <==> v.Int? || v.Float?
    ensures v.Int? ==> ToInt(v) == Some(v.n)
    ensures v.Float? ==>
              var n := ToInt(v).value as real;
              if v.x >= 0.0 then n <= v.x < n + 1.0 && n >= 0.0 else n - 1.0 < v.x <= n && n <= 0.0
  {
  }

  /** What the dispatch loop makes of one Regular payload; a body that does not parse is nil. */
  function Classify(j: Json, payload: seq<byte>): Message {
    match Serialize.Parse(j, payload, 0)
    case Err(_) => Ignored
    case Ok((header, pos)) =>
      var parsed := Serialize.Parse(j, payload, pos);
      ClassifyParts(header, if parsed.Ok? then parsed.value.0 else Nil)
  }

  function ClassifyParts(header: Value, body: Value): Message {
    if !header.Arr? || |header.elems| == 0 then Ignored else
    match ToInt(header.elems[0])
    case None => Ignored
    case Some(kind) =>
      if kind == RESPONSE_INITIALIZE then Initialize
      else if |header.elems| < 2 then Ignored
      else match ToInt(header.elems[1])
        case None => Ignored
        case Some(id) =>
          if kind == RESPONSE_SUCCESS || kind == RESPONSE_ERROR || kind == RESPONSE_ERROR_OBJ
          then Reply(Response(kind, id, body))
          else if kind == RESPONSE_EVENT then Event(id, body)
          else Ignored
  }

  function ClassifyAll(j: Json, payloads: seq<seq<byte>>): seq<Message> {
    seq(|payloads|, i requires 0 <= i < |payloads| => Classify(j, payloads[i]))
  }

  // ---------- The shared table ----------

  /**
   `handlers` maps a request id to the channel of a call, `events` a listener id to a listener;
   `closings` counts how often the channel `initialized` has been closed.
   */
  datatype Table = Table(nextID: nat, handlers: map<int, nat>, events: map<int, nat>, initOnce: bool, closings: nat)

  const FRESH_TABLE := Table(0, map[], map[], false, 0)

  function Draw(t: Table): Table {
    t.(nextID := t.nextID + 1)
  }

  function Bind(t: Table, id: int, channel: nat): Table {
    t.(handlers := t.handlers[id := channel])
  }

  function Unbind(t: Table, id: int): Table {
    t.(handlers := t.handlers - {id})
  }

  function Subscribe(t: Table, id: int, listener: nat): Table {
    t.(events := t.events[id := listener])
  }

  function Unsubscribe(t: Table, id: int): Table {
    t.(events := t.events - {id})
  }

  /** The channel a message goes to, looked up before the entry is deleted. */
  function Target(t: Table, m: Message): Option<nat> {
    if m.Reply? && m.response.id in t.handlers then Some(t.handlers[m.response.id]) else None
  }

  /** The listener that a message starts the handler of. */
  function Heard(t: Table, m: Message): Option<nat> {
    if m.Event? && m.id in t.events then Some(t.events[m.id]) else None
  }

  function SignalInitialized(t: Table): Table {
    if t.initOnce then t else t.(initOnce := true, closings := t.closings + 1)
  }

  function Dispatched(t: Table, m: Message): Table {
    match m
    case Reply(response) => Unbind(t, response.id)
    case Initialize => SignalInitialized(t)
    case _ => t
  }

  // ---------- The machine ----------

  datatype Outcome = Got(response: Response) | TimedOut | SendFailed

  datatype CallPc = Numbered | Registered | Waiting | GivingUp(why: Outcome) | Returned(outcome: Outcome)

  /** One activation of Call: its channel, how often that was sent to, and the log length when it registered. */
  datatype Call = Call(id: int, pc: CallPc, channel: seq<Response>, pushes: nat, since: nat)

  datatype ListenPc = Drawn | Active | Ended

  /** One activation of Listen, with the log lengths when it registered and when it ended. */
  datatype Listener = Listener(id: int, pc: ListenPc, since: nat, until: nat)

  /** The dispatcher between deleting an entry and sending to its channel. */
  datatype Holding = Idle | Holding(call: nat, response: Response)

  /** `log` records the messages the dispatcher has processed, `fired` the handlers it started. */
  datatype State = State(
    table: Table, calls: seq<Call>, listeners: seq<Listener>, hand: Holding,
    log: seq<Message>, fired: seq<(nat, Value)>)

  const START := State(FRESH_TABLE, [], [], Idle, [], [])

  datatype Step =
    | StartCall | Register(c: nat) | SendOk(c: nat) | SendFails(c: nat)
    | Receive(c: nat) | Timeout(c: nat) | Forget(c: nat)
    | StartListen | RegisterListener(l: nat) | EndListen(l: nat)
    | Dispatch(m: Message) | Deliver

  predicate At(s: State, c: nat, pc: CallPc) {
    c < |s.calls| && s.calls[c].pc == pc
  }

  const CHANNEL_CAPACITY := 1

  predicate Enabled(s: State, step: Step) {
    match step
    case StartCall => true
    case Register(c) => At(s, c, Numbered)
    case SendOk(c) => At(s, c, Registered)
    case SendFails(c) => At(s, c, Registered)
    case Receive(c) => At(s, c, Waiting) && s.calls[c].channel != []
    case Timeout(c) => At(s, c, Waiting)
    case Forget(c) => c < |s.calls| && s.calls[c].pc.GivingUp?
    case StartListen => true
    case RegisterListener(l) => l < |s.listeners| && s.listeners[l].pc.Drawn?
    case EndListen(l) => l < |s.listeners| && s.listeners[l].pc.Active?
    case Dispatch(_) => s.hand.Idle?
    case Deliver =>
      s.hand.Holding? && s.hand.call < |s.calls| && |s.calls[s.hand.call].channel| < CHANNEL_CAPACITY
  }

  function SetCall(s: State, c: nat, call: Call): State
    requires c < |s.calls|
  {
    s.(calls := s.calls[c := call])
  }

  function Do(s: State, step: Step): State
    requires Enabled(s, step)
  {
    match step
    case StartCall =>
      s.(table := Draw(s.table), calls := s.calls + [Call(s.table.nextID + 1, Numbered, [], 0, 0)])
    case Register(c) =>
      SetCall(s, c, s.calls[c].(pc := Registered, since := |s.log|)).(table := Bind(s.table, s.calls[c].id, c))
    case SendOk(c) => SetCall(s, c, s.calls[c].(pc := Waiting))
    case SendFails(c) => SetCall(s, c, s.calls[c].(pc := GivingUp(SendFailed)))
    case Receive(c) =>
      SetCall(s, c, s.calls[c].(pc := Returned(Got(s.calls[c].channel[0])), channel := s.calls[c].channel[1..]))
    case Timeout(c) => SetCall(s, c, s.calls[c].(pc := GivingUp(TimedOut)))
    case Forget(c) =>
      SetCall(s, c, s.calls[c].(pc := Returned(s.calls[c].pc.why))).(table := Unbind(s.table, s.calls[c].id))
    case StartListen =>
      s.(table := Draw(s.table), listeners := s.listeners + [Listener(s.table.nextID + 1, Drawn, 0, 0)])
    case RegisterListener(l) =>
      var listener := s.listeners[l];
      s.(table := Subscribe(s.table, listener.id, l),
         listeners := s.listeners[l := listener.(pc := Active, since := |s.log|, until := |s.log|)])
    case EndListen(l) =>
      var listener := s.listeners[l];
      s.(table := Unsubscribe(s.table, listener.id),
         listeners := s.listeners[l := listener.(pc := Ended, until := |s.log|)])
    case Dispatch(m) =>
      var target, heard := Target(s.table, m), Heard(s.table, m);
      s.(table := Dispatched(s.table, m), log := s.log + [m],
         hand := if target.Some? then Holding(target.value, m.response) else Idle,
         fired := if heard.Some? then s.fired + [(heard.value, m.body)] else s.fired)
    case Deliver =>
      var call := s.calls[s.hand.call];
      var call' := call.(channel := call.channel + [s.hand.response], pushes := call.pushes + 1);
      SetCall(s, s.hand.call, call').(hand := Idle)
  }

  predicate Runs(s: State, steps: seq<Step>)
    decreases |steps|
  {
    steps != [] ==> Enabled(s, steps[0]) && Runs(Do(s, steps[0]), steps[1..])
  }

  function After(s: State, steps: seq<Step>): State
    requires Runs(s, steps)
    decreases |steps|
  {
    if steps == [] then s else After(Do(s, steps[0]), steps[1..])
  }

  // ---------- Invariants ----------

  /** The first reply carrying `id` among the messages processed from position `from` on. */
  function FirstReply(log: seq<Message>, from: nat, id: int): (r: Option<Response>)
    ensures r.Some? ==> r.value.id == id
  {
    if |log| <= from then None else
    var m, earlier := log[|log| - 1], FirstReply(log[..|log| - 1], from, id);
    if earlier.Some? then earlier
    else if m.Reply? && m.response.id == id then Some(m.response)
    else None
  }

  lemma FirstReplySnoc(log: seq<Message>, from: nat, id: int, m: Message)
    requires from <= |log|
    ensures FirstReply(log + [m], from, id) ==
            if FirstReply(log, from, id).Some? then FirstReply(log, from, id)
            else if m.Reply? && m.response.id == id then Some(m.response) else None
  {
    assert (log + [m])[..|log|] == log;
  }

  lemma {:induction false} FirstReplyStays(log: seq<Message>, n: nat, id: int)
    requires n <= |log| && FirstReply(log[..n], 0, id).Some?
    ensures FirstReply(log, 0, id) == FirstReply(log[..n], 0, id)
  {
    if n == |log| {
      assert log[..n] == log;
    } else {
      var init := log[..|log| - 1];
      assert init[..n] == log[..n];
      FirstReplyStays(init, n, id);
    }
  }

  /** Ids come from one counter, so all of them differ. */
  predicate Ids(s: State) {
    && (forall c | 0 <= c < |s.calls| :: 1 <= s.calls[c].id <= s.table.nextID)
    && (forall l | 0 <= l < |s.listeners| :: 1 <= s.listeners[l].id <= s.table.nextID)
    && (forall c, d | 0 <= c < |s.calls| && 0 <= d < |s.calls| && c != d :: s.calls[c].id != s.calls[d].id)
    && (forall l, m | 0 <= l < |s.listeners| && 0 <= m < |s.listeners| && l != m ::
          s.listeners[l].id != s.listeners[m].id)
    && (forall c, l | 0 <= c < |s.calls| && 0 <= l < |s.listeners| :: s.calls[c].id != s.listeners[l].id)
  }

  /** Every table entry belongs to the activation that drew its id. */
  predicate Entries(s: State) {
    && (forall id | id in s.table.handlers ::
          s.table.handlers[id] < |s.calls| && s.calls[s.table.handlers[id]].id == id)
    && (forall id | id in s.table.events ::
          s.table.events[id] < |s.listeners| && s.listeners[s.table.events[id]].id == id)
    && (s.hand.Holding? ==> s.hand.call < |s.calls|)
  }

  predicate Held(s: State, c: nat) {
    s.hand.Holding? && s.hand.call == c
  }

  predicate Unsettled(pc: CallPc) {
    pc.Registered? || pc.Waiting? || pc.GivingUp?
  }

  /** Where the response of call `c` is, if there is one. */
  predicate Story(s: State, c: nat)
    requires c < |s.calls|
  {
    var call := s.calls[c];
    var first := FirstReply(s.log, call.since, call.id);
    && call.since <= |s.log|
    && (call.id in s.table.handlers <==> Unsettled(call.pc) && first.None?)
    && (Held(s, c) ==> s.hand.response.id == call.id && call.channel == [] && call.pushes == 0)
    && (call.pushes == 0 ==> call.channel == [])
    && call.pushes <= 1
    && |call.channel| <= call.pushes
    && (forall r <- call.channel :: r.id == call.id)
    && (Unsettled(call.pc) ==>
          match first
          case None => !Held(s, c) && call.pushes == 0
          case Some(r) => if Held(s, c) then s.hand.response == r else call.channel == [r])
    && (call.pc.Numbered? ==> !Held(s, c) && call.pushes == 0)
    && (call.pc.Returned? && call.pc.outcome.Got? ==> first == Some(call.pc.outcome.response) && !Held(s, c))
    && (call.pc.GivingUp? ==> !call.pc.why.Got?)
  }

  predicate Inv(s: State) {
    Ids(s) && Entries(s) && forall c | 0 <= c < |s.calls| :: Story(s, c)
  }

  predicate CallStep(step: Step) {
    step.Register? || step.SendOk? || step.SendFails? || step.Receive? || step.Timeout? || step.Forget?
  }

  lemma StoryElsewhere(s: State, step: Step, c: nat)
    requires Inv(s) && Enabled(s, step) && c < |s.calls|
    requires !step.Dispatch?
    requires step.Deliver? ==> s.hand.call != c
    requires CallStep(step) ==> step.c != c
    ensures c < |Do(s, step).calls| && Story(Do(s, step), c)
  {
    assert Story(s, c);
    if step.Register? || step.Forget? {
      assert s.calls[step.c].id != s.calls[c].id;
    }
  }

  lemma StoryDispatch(s: State, m: Message, c: nat)
    requires Inv(s) && s.hand.Idle? && c < |s.calls|
    ensures Story(Do(s, Dispatch(m)), c)
  {
    assert Story(s, c);
    var call, s' := s.calls[c], Do(s, Dispatch(m));
    FirstReplySnoc(s.log, call.since, call.id, m);
    if m.Reply? && m.response.id in s.table.handlers {
      var d := s.table.handlers[m.response.id];
      assert d < |s.calls| && s.calls[d].id == m.response.id;
      if d != c {
        assert s.calls[d].id != call.id;
      }
    }
  }

  lemma StoryHere(s: State, step: Step)
    requires Inv(s) && Enabled(s, step)
    ensures step.Deliver? ==> Story(Do(s, step), s.hand.call)
    ensures CallStep(step) ==> Story(Do(s, step), step.c)
  {
    if step.Deliver? {
      assert Story(s, s.hand.call);
    } else if CallStep(step) {
      assert Story(s, step.c);
    }
  }

  lemma IdsStep(s: State, step: Step)
    requires Ids(s) && Enabled(s, step)
    ensures Ids(Do(s, step))
  {
    if step.StartCall? {
      OneMoreCall(s, Do(s, step));
    } else if step.StartListen? {
      OneMoreListener(s, Do(s, step));
    } else {
      SameIds(s, Do(s, step));
    }
  }

  lemma OneMoreCall(s: State, s': State)
    requires Ids(s) && s'.listeners == s.listeners && s'.table.nextID == s.table.nextID + 1
    requires |s'.calls| == |s.calls| + 1 && s'.calls[|s.calls|].id == s'.table.nextID
    requires forall c | 0 <= c < |s.calls| :: s'.calls[c] == s.calls[c]
    ensures Ids(s')
  {
  }

  lemma OneMoreListener(s: State, s': State)
    requires Ids(s) && s'.calls == s.calls && s'.table.nextID == s.table.nextID + 1
    requires |s'.listeners| == |s.listeners| + 1 && s'.listeners[|s.listeners|].id == s'.table.nextID
    requires forall l | 0 <= l < |s.listeners| :: s'.listeners[l] == s.listeners[l]
    ensures Ids(s')
  {
  }

  lemma SameIds(s: State, s': State)
    requires Ids(s) && |s'.calls| == |s.calls| && |s'.listeners| == |s.listeners| && s'.table.nextID == s.table.nextID
    requires forall c | 0 <= c < |s.calls| :: s'.calls[c].id == s.calls[c].id
    requires forall l | 0 <= l < |s.listeners| :: s'.listeners[l].id == s.listeners[l].id
    ensures Ids(s')
  {
  }

  lemma EntriesStep(s: State, step: Step)
    requires Inv(s) && Enabled(s, step)
    ensures Entries(Do(s, step))
  {
  }

  lemma InvStep(s: State, step: Step)
    requires Inv(s) && Enabled(s, step)
    ensures Inv(Do(s, step))
  {
    IdsStep(s, step);
    EntriesStep(s, step);
    StoryHere(s, step);
    forall c | 0 <= c < |Do(s, step).calls| ensures Story(Do(s, step), c) {
      if c == |s.calls| {
        assert Do(s, step).calls[c] == Call(s.table.nextID + 1, Numbered, [], 0, 0);
        FreshId(s);
      } else if step.Dispatch? {
        StoryDispatch(s, step.m, c);
      } else if !(step.Deliver? && s.hand.call == c) && !(CallStep(step) && step.c == c) {
        StoryElsewhere(s, step, c);
      }
    }
  }

  lemma FreshId(s: State)
    requires Ids(s) && Entries(s)
    ensures s.table.nextID + 1 !in s.table.handlers
  {
  }

  /** Every reachable state satisfies the invariant. */
  lemma {:induction false} RunInv(s: State, steps: seq<Step>)
    requires Inv(s) && Runs(s, steps)
    ensures Inv(After(s, steps))
    decreases |steps|
  {
    if steps != [] {
      InvStep(s, steps[0]);
      RunInv(Do(s, steps[0]), steps[1..]);
    }
  }

  // ---------- Theorems over every run ----------

  /** A call that returns a response returns the first one processed with its id since it registered. */
  lemma CallGetsItsFirstReply(steps: seq<Step>, c: nat, r: Response)
    requires Runs(START, steps) && At(After(START, steps), c, Returned(Got(r)))
    ensures var s := After(START, steps);
            r.id == s.calls[c].id && FirstReply(s.log, s.calls[c].since, s.calls[c].id) == Some(r)
  {
    RunInv(START, steps);
    assert Story(After(START, steps), c);
  }

  /** When no reply with the id of a call came before it registered, "since it registered" may be dropped. */
  lemma {:induction false} FirstReplyFromStart(log: seq<Message>, from: nat, id: int)
    requires from <= |log| && FirstReply(log[..from], 0, id) == None
    ensures FirstReply(log, 0, id) == FirstReply(log, from, id)
  {
    if |log| == from {
      assert log[..from] == log;
    } else {
      var n := |log| - 1;
      assert log[..n][..from] == log[..from];
      FirstReplyFromStart(log[..n], from, id);
    }
  }

  /** A response stands in the channel, or in the dispatcher's hand, only of the call whose id it carries. */
  lemma NoCrossTalk(steps: seq<Step>, c: nat, d: nat)
    requires Runs(START, steps)
    requires c < |After(START, steps).calls| && d < |After(START, steps).calls| && c != d
    ensures var s := After(START, steps);
            && s.calls[c].id != s.calls[d].id
            && (forall r <- s.calls[c].channel :: r.id == s.calls[c].id)
            && (Held(s, c) ==> s.hand.response.id == s.calls[c].id)
            && s.calls[c].pushes <= 1
  {
    RunInv(START, steps);
    var s := After(START, steps);
    assert Story(s, c);
  }

  /** The dispatcher's send to a response channel never blocks. */
  lemma DispatcherNeverStalls(steps: seq<Step>)
    requires Runs(START, steps) && After(START, steps).hand.Holding?
    ensures Enabled(After(START, steps), Deliver)
  {
    RunInv(START, steps);
    var s := After(START, steps);
    assert Story(s, s.hand.call);
  }

  /** `handlers` holds exactly the registered, unreturned, unanswered calls; call and listener ids are apart. */
  lemma NothingLeaks(steps: seq<Step>)
    requires Runs(START, steps)
    ensures var s := After(START, steps);
            && (forall c | 0 <= c < |s.calls| ::
                  s.calls[c].id in s.table.handlers <==>
                    Unsettled(s.calls[c].pc) && FirstReply(s.log, s.calls[c].since, s.calls[c].id).None?)
            && (forall id | id in s.table.handlers :: exists c | 0 <= c < |s.calls| :: s.calls[c].id == id)
            && s.table.handlers.Keys !! s.table.events.Keys
  {
    RunInv(START, steps);
    var s := After(START, steps);
    forall c | 0 <= c < |s.calls|
      ensures s.calls[c].id in s.table.handlers <==>
                Unsettled(s.calls[c].pc) && FirstReply(s.log, s.calls[c].since, s.calls[c].id).None?
    {
      assert Story(s, c);
    }
    forall id | id in s.table.handlers ensures id !in s.table.events {
      var c := s.table.handlers[id];
      assert s.calls[c].id == id;
    }
  }

  /** A waiting call whose reply has been processed can receive it as soon as the dispatcher's hand is empty. */
  lemma AnsweredCallCanReceive(steps: seq<Step>, c: nat)
    requires Runs(START, steps) && At(After(START, steps), c, Waiting) && After(START, steps).hand.Idle?
    ensures var s := After(START, steps);
            Enabled(s, Receive(c)) <==> FirstReply(s.log, s.calls[c].since, s.calls[c].id).Some?
  {
    RunInv(START, steps);
    assert Story(After(START, steps), c);
  }

  // ---------- Initialization ----------

  predicate InitKept(s: State) {
    s.table.closings == (if s.table.initOnce then 1 else 0) && (s.table.initOnce <==> Initialize in s.log)
  }

  lemma {:induction false} InitRun(s: State, steps: seq<Step>)
    requires InitKept(s) && Runs(s, steps)
    ensures InitKept(After(s, steps))
    decreases |steps|
  {
    if steps != [] {
      InitRun(Do(s, steps[0]), steps[1..]);
    }
  }

  /** However many Initialize messages come, the channel that WaitInitialized waits on is closed once, by the first. */
  lemma InitializedOnce(steps: seq<Step>)
    requires Runs(START, steps)
    ensures var s := After(START, steps);
            s.table.closings <= 1 && (s.table.closings == 1 <==> Initialize in s.log)
  {
    InitRun(START, steps);
  }

  // ---------- Events ----------

  /** The bodies of the events with an id, in order. */
  function EventBodies(log: seq<Message>, id: int): seq<Value> {
    if log == [] then [] else
    var m := log[|log| - 1];
    EventBodies(log[..|log| - 1], id) + (if m.Event? && m.id == id then [m.body] else [])
  }

  /** What the handlers of listener `l` were started with, in order. */
  function StartedFor(fired: seq<(nat, Value)>, l: nat): seq<Value> {
    if fired == [] then [] else
    var f := fired[|fired| - 1];
    StartedFor(fired[..|fired| - 1], l) + (if f.0 == l then [f.1] else [])
  }

  lemma EventBodiesSnoc(log: seq<Message>, m: Message, id: int)
    ensures EventBodies(log + [m], id) == EventBodies(log, id) + (if m.Event? && m.id == id then [m.body] else [])
  {
    assert (log + [m])[..|log|] == log;
  }

  lemma StartedForSnoc(fired: seq<(nat, Value)>, f: (nat, Value), l: nat)
    ensures StartedFor(fired + [f], l) == StartedFor(fired, l) + (if f.0 == l then [f.1] else [])
  {
    assert (fired + [f])[..|fired|] == fired;
  }

  lemma {:induction false} StartedForNobody(fired: seq<(nat, Value)>, l: nat)
    requires forall f <- fired :: f.0 < l
    ensures StartedFor(fired, l) == []
  {
    if fired != [] {
      assert fired[|fired| - 1] in fired;
      StartedForNobody(fired[..|fired| - 1], l);
    }
  }

  /** `events` holds exactly the active listeners, and handlers start for nobody else. */
  predicate Subscribed(s: State) {
    && (forall l | 0 <= l < |s.listeners| :: s.listeners[l].id in s.table.events <==> s.listeners[l].pc.Active?)
    && (forall id | id in s.table.events ::
          s.table.events[id] < |s.listeners| && s.listeners[s.table.events[id]].id == id)
    && (forall f <- s.fired :: f.0 < |s.listeners|)
  }

  /** Where the log stood, or stands, when the listener's subscription ended. */
  function Until(s: State, l: nat): nat
    requires l < |s.listeners|
  {
    if s.listeners[l].pc.Active? then |s.log| else s.listeners[l].until
  }

  /** The handlers of `l` were started for exactly the events with its id while it was subscribed, in their order. */
  predicate HeardExactly(s: State, l: nat)
    requires l < |s.listeners|
  {
    && s.listeners[l].since <= Until(s, l) <= |s.log|
    && (s.listeners[l].pc.Drawn? ==> s.listeners[l].since == Until(s, l))
    && StartedFor(s.fired, l) == EventBodies(s.log[s.listeners[l].since..Until(s, l)], s.listeners[l].id)
  }

  predicate Listening(s: State) {
    Subscribed(s) && forall l | 0 <= l < |s.listeners| :: HeardExactly(s, l)
  }

  lemma SubscribedDispatch(s: State, m: Message)
    requires Subscribed(s) && s.hand.Idle?
    ensures Subscribed(Do(s, Dispatch(m)))
  {
  }

  lemma SubscribedSame(s: State, s': State)
    requires Subscribed(s)
    requires s'.listeners == s.listeners && s'.table.events == s.table.events && s'.fired == s.fired
    ensures Subscribed(s')
  {
  }

  lemma SubscribedChange(s: State, step: Step)
    requires Ids(s) && Subscribed(s) && Enabled(s, step)
    requires step.StartListen? || step.RegisterListener? || step.EndListen?
    ensures Subscribed(Do(s, step))
  {
    if step.StartListen? {
      assert s.table.nextID + 1 !in s.table.events;
    }
  }

  lemma SubscribedStep(s: State, step: Step)
    requires Ids(s) && Subscribed(s) && Enabled(s, step)
    ensures Subscribed(Do(s, step))
  {
    if step.Dispatch? {
      SubscribedDispatch(s, step.m);
    } else if step.StartListen? || step.RegisterListener? || step.EndListen? {
      SubscribedChange(s, step);
    } else {
      SubscribedSame(s, Do(s, step));
    }
  }

  lemma {:induction false} HeardDispatch(s: State, m: Message, l: nat)
    requires Ids(s) && Listening(s) && s.hand.Idle? && l < |s.listeners|
    ensures HeardExactly(Do(s, Dispatch(m)), l)
  {
    assert HeardExactly(s, l);
    var s', listener := Do(s, Dispatch(m)), s.listeners[l];
    var heard := Heard(s.table, m);
    if heard.Some? { StartedForSnoc(s.fired, (heard.value, m.body), l); }
    if listener.pc.Active? {
      assert s'.log[listener.since..|s'.log|] == s.log[listener.since..|s.log|] + [m];
      EventBodiesSnoc(s.log[listener.since..|s.log|], m, listener.id);
    } else {
      assert s'.log[listener.since..listener.until] == s.log[listener.since..listener.until];
    }
  }

  lemma HeardElsewhere(s: State, step: Step, l: nat)
    requires Listening(s) && Enabled(s, step) && !step.Dispatch? && l < |Do(s, step).listeners|
    ensures HeardExactly(Do(s, step), l)
  {
    if l < |s.listeners| {
      assert HeardExactly(s, l);
      var since := s.listeners[l].since;
      if step.RegisterListener? && step.l == l {
        assert s.log[since..since] == [] == s.log[|s.log|..|s.log|];
      }
    } else {
      StartedForNobody(s.fired, l);
    }
  }

  lemma {:induction false} ListeningRun(s: State, steps: seq<Step>)
    requires Ids(s) && Listening(s) && Runs(s, steps)
    ensures Ids(After(s, steps)) && Listening(After(s, steps))
    decreases |steps|
  {
    if steps != [] {
      var s' := Do(s, steps[0]);
      IdsStep(s, steps[0]);
      SubscribedStep(s, steps[0]);
      forall l | 0 <= l < |s'.listeners| ensures HeardExactly(s', l) {
        if steps[0].Dispatch? { HeardDispatch(s, steps[0].m, l); } else { HeardElsewhere(s, steps[0], l); }
      }
      ListeningRun(s', steps[1..]);
    }
  }

  /**
   Over every run, the handlers of a listener are started exactly once for each event with its id that
   was processed between its registration and its end, in order, and for no other event.
   */
  lemma EventsReachTheirListener(steps: seq<Step>, l: nat)
    requires Runs(START, steps) && l < |After(START, steps).listeners|
    ensures var s := After(START, steps);
            var listener, end := s.listeners[l], if s.listeners[l].pc.Ended? then s.listeners[l].until else |s.log|;
            && listener.since <= end <= |s.log|
            && StartedFor(s.fired, l) ==
               if listener.pc.Drawn? then [] else EventBodies(s.log[listener.since..end], listener.id)
  {
    ListeningRun(START, steps);
    assert HeardExactly(After(START, steps), l);
  }

  // ---------- The critical sections of the source ----------

  /** The table after the dispatch loop has handled the messages. */
  function Served(t: Table, ms: seq<Message>): Table {
    if ms == [] then t else Dispatched(Served(t, ms[..|ms| - 1]), ms[|ms| - 1])
  }

  /** One more message served, seen from a call that waits for `id`. */
  lemma OneMoreServed(t: Table, ms: seq<Message>, n: nat, id: int)
    requires n < |ms|
    ensures Served(t, ms[..n + 1]) == Dispatched(Served(t, ms[..n]), ms[n])
    ensures FirstReply(ms[..n + 1], 0, id) ==
            if FirstReply(ms[..n], 0, id).Some? then FirstReply(ms[..n], 0, id)
            else if ms[n].Reply? && ms[n].response.id == id then Some(ms[n].response) else None
  {
    assert ms[..n + 1][..n] == ms[..n] && ms[..n + 1] == ms[..n] + [ms[n]];
    FirstReplySnoc(ms[..n], 0, id, ms[n]);
  }

  class IpcClient {
    var nextID: nat
    var handlers: map<int, nat>
    var eventHandlers: map<int, nat>
    var initOnce: bool
    var closings: nat
    const json: Json

    ghost function View(): Table
      reads this
    {
      Table(nextID, handlers, eventHandlers, initOnce, closings)
    }

    constructor (json: Json)
      ensures View() == FRESH_TABLE && this.json == json
    {
      nextID, handlers, eventHandlers, initOnce, closings := 0, map[], map[], false, 0;
      this.json := json;
    }

    method NextID() returns (id: int)
      modifies this
      ensures View() == Draw(old(View())) && id == nextID
    {
      nextID := nextID + 1;
      id := nextID;
    }

    method RegisterCall(id: int, channel: nat)
      modifies this
      ensures View() == Bind(old(View()), id, channel)
    {
      handlers := handlers[id := channel];
    }

    method ForgetCall(id: int)
      modifies this
      ensures View() == Unbind(old(View()), id)
    {
      handlers := handlers - {id};
    }

    /** One turn of dispatchLoop on a frame's payload, up to the send to the response channel. */
    method DispatchFrame(payload: seq<byte>) returns (m: Message, channel: Option<nat>, handler: Option<nat>)
      modifies this
      ensures m == Classify(json, payload)
      ensures channel == Target(old(View()), m) && handler == Heard(old(View()), m)
      ensures View() == Dispatched(old(View()), m)
    {
      channel, handler := None, None;
      var r := new Reader(payload);
      var header := Deserialize(r, json);
      if header.Err? {
        m := Ignored;
        return;
      }
      StopsAfterValue(json, payload, 0);
      var body := Deserialize(r, json);
      m := ClassifyParts(header.value, if body.Ok? then body.value else Nil);
      match m
      case Initialize =>
        if !initOnce {
          initOnce := true;
          closings := closings + 1;
        }
      case Reply(response) =>
        if response.id in handlers {
          channel := Some(handlers[response.id]);
        }
        handlers := handlers - {response.id};
      case Event(id, _) =>
        if id in eventHandlers {
          handler := Some(eventHandlers[id]);
        }
      case Ignored =>
    }

    /** A message of the protocol: a header, then an argument. */
    method MessageBytes(header: Value, arg: Value) returns (bytes: seq<byte>)
      ensures bytes == Ser(json, header) + Ser(json, arg)
    {
      var w := new Writer();
      Serialize.Serialize(w, json, header);
      Serialize.Serialize(w, json, arg);
      bytes := w.buf;
    }

    /** One turn of the loop while a call waits on `channel`: its response, if the message brings it. */
    method ServeOne(id: int, channel: nat, payload: seq<byte>, ghost m: Message) returns (got: Option<Response>)
      requires m == Classify(json, payload)
      requires id in handlers && forall k | k in handlers :: handlers[k] == channel <==> k == id
      modifies this
      ensures View() == Dispatched(old(View()), m)
      ensures got == if m.Reply? && m.response.id == id then Some(m.response) else None
      ensures got.None? ==> id in handlers && forall k | k in handlers :: handlers[k] == channel <==> k == id
    {
      var n, target, _ := DispatchFrame(payload);
      got := if target == Some(channel) then Some(n.response) else None;
    }

    /** The select of Call: the response, or the timeout when the payloads have brought none. */
    method Await(id: int, channel: nat, payloads: seq<seq<byte>>) returns (outcome: Outcome, handled: nat)
      requires id in handlers && forall k | k in handlers :: handlers[k] == channel <==> k == id
      modifies this
      ensures var ms := ClassifyAll(json, payloads);
              && handled <= |ms| && View() == Unbind(Served(old(View()), ms[..handled]), id)
              && match FirstReply(ms, 0, id)
                 case Some(r) => outcome == Got(r) && handled > 0 && ms[handled - 1] == Reply(r)
                 case None => outcome == TimedOut && handled == |ms|
    {
      ghost var ms := ClassifyAll(json, payloads);
      for i := 0 to |payloads|
        invariant View() == Served(old(View()), ms[..i]) && FirstReply(ms[..i], 0, id) == None
        invariant id in handlers && forall k | k in handlers :: handlers[k] == channel <==> k == id
      {
        var got := ServeOne(id, channel, payloads[i], ms[i]);
        OneMoreServed(old(View()), ms, i, id);
        if got.Some? {
          FirstReplyStays(ms, i + 1, id);
          return Got(got.value), i + 1;
        }
      }
      assert ms[..|payloads|] == ms;
      ForgetCall(id);
      return TimedOut, |payloads|;
    }

    /**
     Call, on the schedule where the dispatch loop handles `payloads` while it waits, stopping once the
     call has its response; `channel` is the new channel, `sent` the success of SendRegular.
     */
    method Call(channelName: seq<byte>, command: seq<byte>, arg: Value, channel: nat, sent: bool,
                payloads: seq<seq<byte>>)
      returns (id: int, bytes: seq<byte>, outcome: Outcome, handled: nat)
      requires forall k | k in handlers :: k <= nextID && handlers[k] != channel
      modifies this
      ensures id == old(nextID) + 1 && id !in handlers
      ensures bytes == Ser(json, Arr([Int(REQUEST_PROMISE), Int(id), Str(channelName), Str(command)])) + Ser(json, arg)
      ensures !sent ==> outcome == SendFailed && View() == Draw(old(View()))
      ensures sent ==>
                var ms := ClassifyAll(json, payloads);
                && handled <= |ms| && View() == Unbind(Served(Bind(Draw(old(View())), id, channel), ms[..handled]), id)
                && match FirstReply(ms, 0, id)
                   case Some(r) => outcome == Got(r) && handled > 0 && ms[handled - 1] == Reply(r)
                   case None => outcome == TimedOut && handled == |ms|
    {
      handled := 0;
      id := NextID();
      RegisterCall(id, channel);
      bytes := MessageBytes(Arr([Int(REQUEST_PROMISE), Int(id), Str(channelName), Str(command)]), arg);
      if !sent {
        ForgetCall(id);
        return id, bytes, SendFailed, handled;
      }
      outcome, handled := Await(id, channel, payloads);
    }

    /** Listen; a failed send takes the subscription back. */
    method Listen(channelName: seq<byte>, event: seq<byte>, arg: Value, listener: nat, sent: bool)
      returns (id: int, bytes: seq<byte>)
      requires forall k | k in eventHandlers :: k <= nextID
      modifies this
      ensures id == old(nextID) + 1
      ensures bytes ==
              Ser(json, Arr([Int(REQUEST_EVENT_LISTEN), Int(id), Str(channelName), Str(event)])) + Ser(json, arg)
      ensures View() == if sent then Subscribe(Draw(old(View())), id, listener) else Draw(old(View()))
    {
      id := NextID();
      eventHandlers := eventHandlers[id := listener];
      bytes := MessageBytes(Arr([Int(REQUEST_EVENT_LISTEN), Int(id), Str(channelName), Str(event)]), arg);
      if !sent {
        eventHandlers := eventHandlers - {id};
      }
    }

    /** The function that Listen returns. */
    method Dispose(id: int) returns (bytes: seq<byte>)
      modifies this
      ensures View() == Unsubscribe(old(View()), id)
      ensures bytes == Ser(json, Arr([Int(REQUEST_EVENT_DISPOSE), Int(id)])) + Ser(json, Nil)
    {
      eventHandlers := eventHandlers - {id};
      bytes := MessageBytes(Arr([Int(REQUEST_EVENT_DISPOSE), Int(id)]), Nil);
    }
  }
}
