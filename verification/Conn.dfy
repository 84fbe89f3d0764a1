/**
 The connection as interleaved atomic steps of the read loop, any number of senders, the keep-alive
 loop and Close. `Core` holds the fields of the source's Conn; the class at the end runs the
 methods of the source against the functions on Core that the steps are made of.
 */
module Conn {
  import opened Wrappers
  import opened Words
  import opened Frames

  const REGULAR_CAPACITY := 64
  const CONTROL_CAPACITY := 16

  /** `closings` counts how often closeCh has been closed; `wire` is what has been written. */
  datatype Core = Core(
    closed: bool, onceDone: bool, closings: nat, regularClosed: bool,
    outgoingID: uint32, incomingAck: uint32,
    regularCh: seq<Frame>, controlCh: seq<Frame>, wire: seq<Frame>)

  const OPEN_CORE := Core(false, false, 0, false, 0, 0, [], [], [])

  function Signal(c: Core): Core {
    if c.onceDone then c else c.(onceDone := true, closings := c.closings + 1)
  }

  predicate Queued(f: Frame) {
    f.kind == REGULAR || f.kind == CONTROL
  }

  predicate HasRoom(c: Core, f: Frame) {
    if f.kind == REGULAR then |c.regularCh| < REGULAR_CAPACITY else |c.controlCh| < CONTROL_CAPACITY
  }

  function Push(c: Core, f: Frame): Core {
    if f.kind == REGULAR then c.(regularCh := c.regularCh + [f]) else c.(controlCh := c.controlCh + [f])
  }

  /** The write under the mutex: refused once the connection is closed. */
  function WriteFrame(c: Core, f: Frame, reaches: bool): Core {
    if c.closed || !reaches then c else c.(wire := c.wire + [f])
  }

  function Allocated(c: Core): Core {
    c.(outgoingID := ToU32(c.outgoingID + 1))
  }

  // ---------- The machine ----------

  /** Where the read loop stands; `faulty`: the decoder will fail at run time on what follows the frames. */
  datatype Reader =
    | Waiting
    | Failing  // a read error, to be noted under the mutex
    | Delivering(todo: seq<Frame>, faulty: bool)
    | Offering(frame: Frame, rest: seq<Frame>, faulty: bool)
    | Leaving
    | ClosingRegular
    | Done
    | Crashed

  /** What a sender was asked to send; `serial` numbers the Regular sends from 1. */
  datatype Request = Regular(serial: nat, payload: seq<byte>) | Control(payload: seq<byte>) | KeepAlive

  /** Where a frame comes from: its request, and how many frames had begun when its acknowledgement was loaded. */
  datatype Origin = Origin(request: nat, seen: nat)

  /** A sender has its id, then a finished frame. */
  datatype Sender = Numbered(serial: nat, payload: seq<byte>, request: nat) | Ready(frame: Frame, origin: Origin)

  /**
   `writing`: the sender that holds the mutex while its frame is on the way to the socket, as long as that
   takes. The sequences after it record the run: messages read, frames begun, channel traffic; `requests`
   what was asked to be sent, `origins` where each frame on the wire comes from.
   */
  datatype State = State(
    core: Core, reader: Reader, writing: Option<nat>,
    received: seq<seq<byte>>, begun: seq<Frame>,
    regularIn: seq<Frame>, regularOut: seq<Frame>, controlIn: seq<Frame>, controlOut: seq<Frame>,
    senders: map<nat, Sender>, sends: nat, requests: seq<Request>, origins: seq<Origin>, wireAtClose: nat)

  const START := State(OPEN_CORE, Waiting, None, [], [], [], [], [], [], map[], 0, [], [], 0)

  datatype Step =
    | Receive(data: seq<byte>) | ReadError | NoteError | NextMessage | Crash
    | Begin | Offer | Abort | SignalClosed | CloseRegular
    | TakeRegular | TakeControl | Close
    | Allocate(t: nat, payload: seq<byte>) | LoadAck(t: nat)
    | MakeKeepAlive(t: nat) | MakeControl(t: nat, payload: seq<byte>)
    | Lock(t: nat) | Write(reaches: bool)

  predicate ReaderStep(step: Step) {
    || step.ReadError? || step.NoteError? || step.NextMessage? || step.Crash? || step.Begin? || step.Offer?
    || step.Abort? || step.SignalClosed? || step.CloseRegular?
  }

  /** A crash of the read loop ends the process, and with it every other step. */
  predicate Enabled(s: State, step: Step) {
    !s.reader.Crashed? &&
    match step
    case Receive(_) => s.reader.Waiting?
    case ReadError => s.reader.Waiting?
    case NoteError => s.reader.Failing? && s.writing.None?
    case NextMessage => s.reader == Delivering([], false)
    case Crash => s.reader == Delivering([], true)
    case Begin => s.reader.Delivering? && s.reader.todo != []
    case Offer => s.reader.Offering? && HasRoom(s.core, s.reader.frame)
    case Abort => s.reader.Offering? && s.core.closings > 0
    case SignalClosed => s.reader.Leaving?
    case CloseRegular => s.reader.ClosingRegular?
    case TakeRegular => s.core.regularCh != []
    case TakeControl => s.core.controlCh != []
    case Close => s.writing.None?
    case Allocate(t, _) => t !in s.senders
    case LoadAck(t) => t in s.senders && s.senders[t].Numbered?
    case MakeKeepAlive(t) => t !in s.senders
    case MakeControl(t, _) => t !in s.senders
    case Lock(t) => t in s.senders && s.senders[t].Ready? && s.writing.None?
    case Write(_) => s.writing.Some? && s.writing.value in s.senders && s.senders[s.writing.value].Ready?
  }

  function MarkClosed(s: State): State {
    s.(core := s.core.(closed := true), wireAtClose := if s.core.closed then s.wireAtClose else |s.core.wire|)
  }

  function BeginFrame(s: State, f: Frame, rest: seq<Frame>, faulty: bool): State {
    var core := if f.kind == REGULAR then s.core.(incomingAck := f.id) else s.core;
    var reader := if Queued(f) then Offering(f, rest, faulty) else Delivering(rest, faulty);
    s.(core := core, begun := s.begun + [f], reader := reader)
  }

  function OfferFrame(s: State, f: Frame, rest: seq<Frame>, faulty: bool): State {
    var s' := s.(core := Push(s.core, f), reader := Delivering(rest, faulty));
    if f.kind == REGULAR then s'.(regularIn := s.regularIn + [f]) else s'.(controlIn := s.controlIn + [f])
  }

  /** sendFrame has the mutex: it gives up on a closed connection, else it holds the mutex for the write. */
  function LockFrame(s: State, t: nat): State {
    if s.core.closed then s.(senders := s.senders - {t}) else s.(writing := Some(t))
  }

  function FinishWrite(s: State, t: nat, reaches: bool): State
    requires t in s.senders && s.senders[t].Ready?
  {
    var core := WriteFrame(s.core, s.senders[t].frame, reaches);
    s.(core := core, senders := s.senders - {t}, writing := None,
       origins := if s.core.closed || !reaches then s.origins else s.origins + [s.senders[t].origin])
  }

  /** Another sender under way, with what it was asked to send. */
  function Asked(s: State, t: nat, request: Request, sender: Sender): State {
    s.(requests := s.requests + [request], senders := s.senders[t := sender])
  }

  function Do(s: State, step: Step): State
    requires Enabled(s, step)
  {
    match step
    case Receive(data) => s.(received := s.received + [data], reader := Delivering(FramesOf(data), Faulty(data)))
    case ReadError => s.(reader := Failing)
    case NoteError => MarkClosed(s).(reader := Leaving)
    case NextMessage => s.(reader := Waiting)
    case Crash => s.(reader := Crashed)
    case Begin => BeginFrame(s, s.reader.todo[0], s.reader.todo[1..], s.reader.faulty)
    case Offer => OfferFrame(s, s.reader.frame, s.reader.rest, s.reader.faulty)
    case Abort => s.(reader := Leaving)
    case SignalClosed => s.(core := Signal(s.core), reader := ClosingRegular)
    case CloseRegular => s.(core := s.core.(regularClosed := true), reader := Done)
    case TakeRegular =>
      s.(core := s.core.(regularCh := s.core.regularCh[1..]), regularOut := s.regularOut + [s.core.regularCh[0]])
    case TakeControl =>
      s.(core := s.core.(controlCh := s.core.controlCh[1..]), controlOut := s.controlOut + [s.core.controlCh[0]])
    case Close => var s' := MarkClosed(s); s'.(core := Signal(s'.core))
    case Allocate(t, payload) =>
      var serial := s.sends + 1;
      Asked(s, t, Regular(serial, payload), Numbered(serial, payload, |s.requests|))
      .(core := Allocated(s.core), sends := serial)
    case LoadAck(t) =>
      var n := s.senders[t];
      var f := Frame(REGULAR, ToU32(n.serial), s.core.incomingAck, n.payload);
      s.(senders := s.senders[t := Ready(f, Origin(n.request, |s.begun|))])
    case MakeKeepAlive(t) =>
      Asked(s, t, KeepAlive, Ready(Frame(KEEP_ALIVE, 0, s.core.incomingAck, []), Origin(|s.requests|, |s.begun|)))
    case MakeControl(t, payload) =>
      Asked(s, t, Control(payload), Ready(Frame(CONTROL, 0, 0, payload), Origin(|s.requests|, |s.begun|)))
    case Lock(t) => LockFrame(s, t)
    case Write(reaches) => FinishWrite(s, s.writing.value, reaches)
  }

  /** The steps can be taken one after another. */
  predicate Runs(s: State, steps: seq<Step>)
    decreases |steps|
  {
    steps != [] ==> Enabled(s, steps[0]) && Runs(Do(s, steps[0]), steps[1..])
  }

  function After(s: State, steps: seq<Step>): State
    requires Runs(s, steps)
    decreases |steps|
  {
    if steps == [] then s else After(Do(s, steps[0]), steps[1..])
  }

  // ---------- Shutdown ----------

  /** closeCh is closed at most once, regularCh only by the reader's last step, and no write outlives the closing. */
  predicate ClosingOnce(s: State) {
    && s.core.closings == (if s.core.onceDone then 1 else 0)
    && s.core.regularClosed == s.reader.Done?
    && (s.reader.ClosingRegular? || s.reader.Done? ==> s.core.onceDone)
    && (s.core.closed ==> |s.core.wire| == s.wireAtClose)
    && (s.writing.Some? ==>
          !s.core.closed && s.writing.value in s.senders && s.senders[s.writing.value].Ready?)
  }

  lemma {:induction false} ClosingOnceStep(s: State, step: Step)
    requires ClosingOnce(s) && Enabled(s, step)
    ensures ClosingOnce(Do(s, step))
    ensures s.core.closed ==> Do(s, step).core.closed && Do(s, step).core.wire == s.core.wire
    ensures Do(s, step).core.closings >= s.core.closings
  {
  }

  /** Over every run: closeCh closed at most once, and no push when regularCh is closed. */
  lemma {:induction false} ShutdownSafety(s: State, steps: seq<Step>)
    requires ClosingOnce(s) && Runs(s, steps)
    ensures ClosingOnce(After(s, steps))
    ensures s.core.closings <= After(s, steps).core.closings <= 1
    ensures Enabled(After(s, steps), Offer) ==> !After(s, steps).core.regularClosed
    ensures s.core.closed ==> After(s, steps).core.closed && After(s, steps).core.wire == s.core.wire
    decreases |steps|
  {
    if steps != [] {
      ClosingOnceStep(s, steps[0]);
      ShutdownSafety(Do(s, steps[0]), steps[1..]);
    }
  }

  // ---------- Delivery ----------

  function Of(kind: byte, fs: seq<Frame>): seq<Frame> {
    if fs == [] then []
    else Of(kind, fs[..|fs| - 1]) + (if fs[|fs| - 1].kind == kind then [fs[|fs| - 1]] else [])
  }

  function AllFrames(messages: seq<seq<byte>>): seq<Frame> {
    if messages == [] then [] else AllFrames(messages[..|messages| - 1]) + FramesOf(messages[|messages| - 1])
  }

  /** The frames of the messages read that the loop has not begun to deliver. */
  function Ahead(r: Reader): seq<Frame> {
    match r
    case Delivering(todo, _) => todo
    case Offering(_, rest, _) => rest
    case _ => []
  }

  function Offered(kind: byte, r: Reader): seq<Frame> {
    if r.Offering? && r.frame.kind == kind then [r.frame] else []
  }

  predicate Gone(r: Reader) {
    r.Leaving? || r.ClosingRegular? || r.Done? || r.Crashed?
  }

  /** Channels are first-in first-out and within capacity. */
  predicate Queues(s: State) {
    && s.regularIn == s.regularOut + s.core.regularCh
    && s.controlIn == s.controlOut + s.core.controlCh
    && |s.core.regularCh| <= REGULAR_CAPACITY
    && |s.core.controlCh| <= CONTROL_CAPACITY
    && (s.reader.Offering? ==> Queued(s.reader.frame))
  }

  /** Until the reader leaves, what it began is what it was sent; of that, the rest stands in the channels. */
  predicate Stream(s: State) {
    && (!Gone(s.reader) ==>
         && s.begun + Ahead(s.reader) == AllFrames(s.received)
         && s.regularIn + Offered(REGULAR, s.reader) == Of(REGULAR, s.begun)
         && s.controlIn + Offered(CONTROL, s.reader) == Of(CONTROL, s.begun))
    && (Gone(s.reader) ==>
         s.begun <= AllFrames(s.received) && s.regularIn <= Of(REGULAR, s.begun) && s.controlIn <= Of(CONTROL, s.begun))
  }

  lemma OfSnoc(kind: byte, fs: seq<Frame>, f: Frame)
    ensures Of(kind, fs + [f]) == Of(kind, fs) + (if f.kind == kind then [f] else [])
  {
    assert (fs + [f])[..|fs|] == fs;
  }

  lemma {:induction false} OfConcat(kind: byte, a: seq<Frame>, b: seq<Frame>)
    ensures Of(kind, a + b) == Of(kind, a) + Of(kind, b)
  {
    if b == [] {
      assert a + b == a;
    } else {
      var n := |b| - 1;
      OfConcat(kind, a, b[..n]);
      assert (a + b)[..|a + b| - 1] == a + b[..n];
      AppendAssoc(Of(kind, a), Of(kind, b[..n]), if b[n].kind == kind then [b[n]] else []);
    }
  }

  lemma OfPrefix(kind: byte, a: seq<Frame>, b: seq<Frame>)
    requires a <= b
    ensures Of(kind, a) <= Of(kind, b)
  {
    OfConcat(kind, a, b[|a|..]);
    assert b == a + b[|a|..];
  }

  lemma QueuesStep(s: State, step: Step)
    requires Queues(s) && Enabled(s, step)
    ensures Queues(Do(s, step))
  {
    var s' := Do(s, step);
    if step.Offer? {
      var f := s.reader.frame;
      AppendAssoc(s.regularOut, s.core.regularCh, [f]);
      AppendAssoc(s.controlOut, s.core.controlCh, [f]);
    } else if step.TakeRegular? {
      AppendAssoc(s.regularOut, [s.core.regularCh[0]], s.core.regularCh[1..]);
      assert s.core.regularCh == [s.core.regularCh[0]] + s.core.regularCh[1..];
    } else if step.TakeControl? {
      AppendAssoc(s.controlOut, [s.core.controlCh[0]], s.core.controlCh[1..]);
      assert s.core.controlCh == [s.core.controlCh[0]] + s.core.controlCh[1..];
    }
  }

  /** One frame begun: what was ahead, in the channels and offered follows. */
  lemma StreamBegins(s: State, s': State, f: Frame, rest: seq<Frame>)
    requires Stream(s) && !Gone(s.reader) && !Gone(s'.reader) && Ahead(s.reader) == [f] + rest && !s.reader.Offering?
    requires s'.begun == s.begun + [f] && Ahead(s'.reader) == rest && s'.received == s.received
    requires s'.regularIn == s.regularIn && s'.controlIn == s.controlIn
    requires Offered(REGULAR, s'.reader) == if f.kind == REGULAR then [f] else []
    requires Offered(CONTROL, s'.reader) == if f.kind == CONTROL then [f] else []
    ensures Stream(s')
  {
    AppendAssoc(s.begun, [f], rest);
    OfSnoc(REGULAR, s.begun, f);
    OfSnoc(CONTROL, s.begun, f);
    assert s.regularIn + [] == s.regularIn && s.controlIn + [] == s.controlIn;
  }

  lemma StreamBegin(s: State)
    requires Queues(s) && Stream(s) && Enabled(s, Begin)
    ensures Stream(Do(s, Begin))
  {
    var f, rest := s.reader.todo[0], s.reader.todo[1..];
    assert s.reader.todo == [f] + rest;
    StreamBegins(s, Do(s, Begin), f, rest);
  }

  lemma StreamReceive(s: State, data: seq<byte>)
    requires Queues(s) && Stream(s) && Enabled(s, Receive(data))
    ensures Stream(Do(s, Receive(data)))
  {
    assert (s.received + [data])[..|s.received|] == s.received;
    assert s.begun + [] == s.begun;
  }

  lemma StreamOffer(s: State)
    requires Queues(s) && Stream(s) && Enabled(s, Offer)
    ensures Stream(Do(s, Offer))
  {
    var f := s.reader.frame;
    if f.kind == REGULAR {
      assert s.regularIn + [f] + [] == s.regularIn + [f];
    } else {
      assert s.controlIn + [f] + [] == s.controlIn + [f];
    }
  }

  lemma StreamLeaves(s: State, step: Step)
    requires Queues(s) && Stream(s) && Enabled(s, step) && ReaderStep(step) && !step.Begin? && !step.Offer?
    ensures Stream(Do(s, step))
  {
    if !Gone(s.reader) {
      assert s.begun <= s.begun + Ahead(s.reader);
      assert s.regularIn <= s.regularIn + Offered(REGULAR, s.reader);
      assert s.controlIn <= s.controlIn + Offered(CONTROL, s.reader);
    }
  }

  lemma StreamStep(s: State, step: Step)
    requires Queues(s) && Stream(s) && Enabled(s, step)
    ensures Stream(Do(s, step))
  {
    if step.Begin? {
      StreamBegin(s);
    } else if step.Receive? {
      StreamReceive(s, step.data);
    } else if step.Offer? {
      StreamOffer(s);
    } else if ReaderStep(step) {
      StreamLeaves(s, step);
    }
  }

  /**
   Over every run, what the dispatcher has taken and what still waits for it is a prefix of the
   Regular frames of the messages read, in order and without repetition; and when the read loop is
   back at the socket nothing has been lost. The same holds for Control frames.
   */
  lemma {:induction false} Delivery(s: State, steps: seq<Step>)
    requires Queues(s) && Stream(s) && Runs(s, steps)
    ensures Queues(After(s, steps)) && Stream(After(s, steps))
    decreases |steps|
  {
    if steps != [] {
      QueuesStep(s, steps[0]);
      StreamStep(s, steps[0]);
      Delivery(Do(s, steps[0]), steps[1..]);
    }
  }

  lemma InOrderNoLoss(steps: seq<Step>)
    requires Runs(START, steps)
    ensures var s := After(START, steps);
            && s.regularOut + s.core.regularCh <= Of(REGULAR, AllFrames(s.received))
            && s.controlOut + s.core.controlCh <= Of(CONTROL, AllFrames(s.received))
            && (s.reader.Waiting? ==>
                 && s.regularOut + s.core.regularCh == Of(REGULAR, AllFrames(s.received))
                 && s.controlOut + s.core.controlCh == Of(CONTROL, AllFrames(s.received)))
  {
    Delivery(START, steps);
    var s := After(START, steps);
    if s.reader.Waiting? {
      assert s.begun + [] == s.begun && s.regularIn + [] == s.regularIn && s.controlIn + [] == s.controlIn;
      return;
    }
    OfPrefix(REGULAR, s.begun, AllFrames(s.received));
    OfPrefix(CONTROL, s.begun, AllFrames(s.received));
  }

  // ---------- Progress of the read loop ----------

  lemma Reached(before: seq<Step>, steps: seq<Step>)
    requires Runs(START, before) && Runs(After(START, before), steps)
    ensures var s, s' := After(START, before), After(After(START, before), steps);
            && Queues(s) && Stream(s) && ClosingOnce(s) && Queues(s') && ClosingOnce(s')
            && s'.core.closings >= s.core.closings
  {
    Delivery(START, before);
    ShutdownSafety(START, before);
    Delivery(After(START, before), steps);
    ShutdownSafety(After(START, before), steps);
  }

  /** The read loop can take no step. */
  ghost predicate Stuck(s: State) {
    forall step | ReaderStep(step) :: !Enabled(s, step)
  }

  predicate Over(r: Reader) {
    r.Done? || r.Crashed?
  }

  /** Backpressure: the channel of the offered frame is full on an open connection. */
  predicate HeldByChannel(s: State) {
    s.reader.Offering? && !HasRoom(s.core, s.reader.frame) && s.core.closings == 0
  }

  /** A sender's write to the socket holds the mutex that the read error is noted under. */
  predicate HeldByWrite(s: State) {
    s.reader.Failing? && s.writing.Some?
  }

  /** The read loop is stuck exactly when it is over, or a full channel or a write to the socket holds it. */
  lemma StuckExactly(s: State)
    requires Queues(s) && ClosingOnce(s)
    ensures Stuck(s) <==> Over(s.reader) || HeldByChannel(s) || HeldByWrite(s)
  {
    if !Over(s.reader) && !HeldByChannel(s) && !HeldByWrite(s) {
      var step := match s.reader
        case Waiting => ReadError
        case Failing => NoteError
        case Delivering(todo, faulty) => if todo != [] then Begin else if faulty then Crash else NextMessage
        case Offering(_, _, _) => if s.core.closings > 0 then Abort else Offer
        case Leaving => SignalClosed
        case _ => CloseRegular;
      assert ReaderStep(step) && Enabled(s, step);
    }
  }

  /**
   While no more Control frames have come than were taken and fit their channel, nothing but unread
   Regular frames and writes to the socket can hold the read loop: wherever it is stuck before its end,
   the dispatcher can take a frame or a write is under way.
   */
  lemma OnlyTheDispatcherIsWaitedFor(steps: seq<Step>)
    requires Runs(START, steps)
    ensures var s := After(START, steps);
            && |Of(CONTROL, AllFrames(s.received))| <= |s.controlOut| + CONTROL_CAPACITY
            && !Over(s.reader) && Stuck(s)
            ==> if s.reader.Failing? then Enabled(s, Write(true))
                else s.reader.Offering? && s.reader.frame.kind == REGULAR && Enabled(s, TakeRegular)
  {
    Reached(steps, []);
    var s := After(START, steps);
    StuckExactly(s);
    if s.reader.Offering? && s.reader.frame.kind == CONTROL {
      assert s.controlIn + Offered(CONTROL, s.reader) == Of(CONTROL, s.begun);
      assert s.begun <= s.begun + Ahead(s.reader);
      OfPrefix(CONTROL, s.begun, AllFrames(s.received));
    }
  }

  lemma {:induction false} HeldForGood(s: State, steps: seq<Step>)
    requires ClosingOnce(s) && Runs(s, steps) && HeldByChannel(s) && s.reader.frame.kind == CONTROL
    requires forall i | 0 <= i < |steps| :: !steps[i].TakeControl? && !steps[i].Close?
    ensures After(s, steps).reader == s.reader && HeldByChannel(After(s, steps))
    decreases |steps|
  {
    if steps != [] {
      assert !steps[0].TakeControl? && !steps[0].Close?;
      assert forall i | 0 <= i < |steps| - 1 :: steps[1..][i] == steps[i + 1];
      ClosingOnceStep(s, steps[0]);
      assert Do(s, steps[0]).reader == s.reader;
      HeldForGood(Do(s, steps[0]), steps[1..]);
    }
  }

  /**
   The 17th unread Control frame holds the read loop for good: once it has begun one more than were taken
   and fit the channel, on an open connection, no run brings it further in which nobody takes Control
   frames, as after the handshake, and nobody closes.
   */
  lemma SeventeenthControlFrame(before: seq<Step>, steps: seq<Step>)
    requires Runs(START, before) && Runs(After(START, before), steps)
    requires var s := After(START, before);
             !Gone(s.reader) && s.core.closings == 0 && |Of(CONTROL, s.begun)| > |s.controlOut| + CONTROL_CAPACITY
    requires forall i | 0 <= i < |steps| :: !steps[i].TakeControl? && !steps[i].Close?
    ensures var s, s' := After(START, before), After(After(START, before), steps);
            && s'.reader == s.reader && s.reader.Offering? && s.reader.frame.kind == CONTROL
            && Stuck(s')
  {
    var s := After(START, before);
    Reached(before, []);
    assert s.controlIn + Offered(CONTROL, s.reader) == Of(CONTROL, s.begun);
    HeldForGood(s, steps);
    Reached(before, steps);
    StuckExactly(After(s, steps));
  }

  /** While a write is under way, nothing closes the connection: Close waits for the mutex as well. */
  lemma {:induction false} WriteHoldsClose(s: State, steps: seq<Step>)
    requires ClosingOnce(s) && s.writing.Some? && Runs(s, steps)
    requires forall i | 0 <= i < |steps| :: !steps[i].Write?
    ensures var s' := After(s, steps);
            && s'.writing == s.writing && !s'.core.closed && s'.core.wire == s.core.wire
            && !Enabled(s', Close) && !Enabled(s', NoteError)
    decreases |steps|
  {
    if steps != [] {
      assert !steps[0].Write?;
      assert forall i | 0 <= i < |steps| - 1 :: steps[1..][i] == steps[i + 1];
      ClosingOnceStep(s, steps[0]);
      assert Do(s, steps[0]).writing == s.writing && Do(s, steps[0]).core.wire == s.core.wire;
      WriteHoldsClose(Do(s, steps[0]), steps[1..]);
    }
  }

  predicate NoReceive(steps: seq<Step>) {
    forall i | 0 <= i < |steps| :: !steps[i].Receive?
  }

  /** How many steps of a run are the read loop's own. */
  function Turns(steps: seq<Step>): nat {
    if steps == [] then 0 else (if ReaderStep(steps[0]) then 1 else 0) + Turns(steps[1..])
  }

  /** An upper bound on the turns that the loop still has without another message. */
  function TurnsLeft(r: Reader): nat {
    match r
    case Delivering(todo, _) => 2 * |todo| + 6
    case Offering(_, rest, _) => 2 * |rest| + 7
    case Waiting => 5
    case Failing => 4
    case Leaving => 3
    case ClosingRegular => 2
    case _ => 0
  }

  /** However the other steps interleave, every turn uses up some of the bound. */
  lemma {:induction false} TurnsBounded(s: State, steps: seq<Step>)
    requires Runs(s, steps) && NoReceive(steps)
    ensures Turns(steps) + TurnsLeft(After(s, steps).reader) <= TurnsLeft(s.reader)
    decreases |steps|
  {
    if steps != [] {
      assert NoReceive(steps[1..]) by {
        assert forall i | 0 <= i < |steps| - 1 :: steps[1..][i] == steps[i + 1];
      }
      assert !steps[0].Receive?;
      TurnsBounded(Do(s, steps[0]), steps[1..]);
    }
  }

  /**
   From any reachable state in which closeCh is closed, on every run without another message, whatever
   select chooses and whatever the others do, the read loop takes a bounded number of turns, and it can
   take another one unless it is over or waits for a write that is under way: no channel can hold it.
   */
  lemma ShutdownReached(before: seq<Step>, steps: seq<Step>)
    requires Runs(START, before) && After(START, before).core.closings > 0
    requires Runs(After(START, before), steps) && NoReceive(steps)
    ensures var s, s' := After(START, before), After(After(START, before), steps);
            && Turns(steps) <= TurnsLeft(s.reader)
            && (Stuck(s') <==> Over(s'.reader) || HeldByWrite(s'))
            && (HeldByWrite(s') ==> forall reaches :: Enabled(s', Write(reaches)))
  {
    Reached(before, steps);
    TurnsBounded(After(START, before), steps);
    StuckExactly(After(After(START, before), steps));
  }

  /** The loop remembers whether the message it works on is faulty. */
  predicate Remembers(s: State) {
    match s.reader
    case Waiting => s.received == [] || !Faulty(s.received[|s.received| - 1])
    case Delivering(_, faulty) => s.received != [] && faulty == Faulty(s.received[|s.received| - 1])
    case Offering(_, _, faulty) => s.received != [] && faulty == Faulty(s.received[|s.received| - 1])
    case Crashed => s.received != [] && Faulty(s.received[|s.received| - 1])
    case _ => true
  }

  lemma {:induction false} RemembersStep(s: State, step: Step)
    requires Remembers(s) && Enabled(s, step)
    ensures Remembers(Do(s, step))
  {
    if !ReaderStep(step) && !step.Receive? {
      assert Do(s, step).reader == s.reader && Do(s, step).received == s.received;
    }
  }

  lemma {:induction false} RemembersRun(s: State, steps: seq<Step>)
    requires Remembers(s) && Runs(s, steps)
    ensures Remembers(After(s, steps))
    decreases |steps|
  {
    if steps != [] {
      RemembersStep(s, steps[0]);
      RemembersRun(Do(s, steps[0]), steps[1..]);
    }
  }

  /**
   The loop crashes only on a message that declares too long a frame after its whole ones, and with
   such a message it never comes back to the socket.
   */
  lemma CrashExactly(steps: seq<Step>)
    requires Runs(START, steps)
    ensures var s := After(START, steps);
            var faulty := s.received != [] && Faulty(s.received[|s.received| - 1]);
            && (s.reader.Crashed? ==> faulty)
            && (faulty ==> !s.reader.Waiting? && !Enabled(s, NextMessage))
            && (s.reader.Delivering? && s.reader.todo == [] ==> (Enabled(s, Crash) <==> faulty))
  {
    RemembersRun(START, steps);
  }

  // ---------- What goes out ----------

  /** The id of the last Regular frame begun, 0 before the first. */
  function LastId(begun: seq<Frame>): uint32 {
    if begun == [] then 0
    else if begun[|begun| - 1].kind == REGULAR then begun[|begun| - 1].id
    else LastId(begun[..|begun| - 1])
  }

  lemma {:induction false} LastIdExactly(begun: seq<Frame>)
    ensures (forall i | 0 <= i < |begun| :: begun[i].kind != REGULAR) ==> LastId(begun) == 0
    ensures forall i | 0 <= i < |begun| && begun[i].kind == REGULAR ::
              (forall j | i < j < |begun| :: begun[j].kind != REGULAR) ==> LastId(begun) == begun[i].id
  {
    if begun != [] {
      var init := begun[..|begun| - 1];
      LastIdExactly(init);
      assert forall i | 0 <= i < |init| :: init[i] == begun[i];
    }
  }

  /** The frame that a request asks for, acknowledging what had begun by then. */
  function FrameFor(request: Request, begun: seq<Frame>): Frame {
    match request
    case Regular(serial, payload) => Frame(REGULAR, ToU32(serial), LastId(begun), payload)
    case Control(payload) => Frame(CONTROL, 0, 0, payload)
    case KeepAlive => Frame(KEEP_ALIVE, 0, LastId(begun), [])
  }

  predicate Answers(s: State, f: Frame, origin: Origin) {
    && origin.request < |s.requests| && origin.seen <= |s.begun|
    && f == FrameFor(s.requests[origin.request], s.begun[..origin.seen])
  }

  predicate Held(s: State, t: nat)
    requires t in s.senders
  {
    match s.senders[t]
    case Numbered(serial, payload, request) =>
      request < |s.requests| && s.requests[request] == Regular(serial, payload)
    case Ready(frame, origin) => Answers(s, frame, origin)
  }

  predicate Counters(s: State) {
    s.core.outgoingID == ToU32(s.sends) && s.core.incomingAck == LastId(s.begun)
  }

  /** Serials go up by request. */
  predicate Numbering(s: State) {
    && (forall r | 0 <= r < |s.requests| && s.requests[r].Regular? :: 1 <= s.requests[r].serial <= s.sends)
    && forall r, q | 0 <= r < q < |s.requests| && s.requests[r].Regular? && s.requests[q].Regular? ::
         s.requests[r].serial < s.requests[q].serial
  }

  predicate Traced(s: State) {
    && |s.origins| == |s.core.wire|
    && (forall i | 0 <= i < |s.origins| :: Answers(s, s.core.wire[i], s.origins[i]))
    && (forall t | t in s.senders :: Held(s, t))
  }

  function RequestOf(h: Sender): nat {
    if h.Numbered? then h.request else h.origin.request
  }

  predicate OnceOnWire(s: State) {
    forall i, j | 0 <= i < j < |s.origins| :: s.origins[i].request != s.origins[j].request
  }

  /** No request in a sender's hands is on the wire or in other hands. */
  predicate OnceInHand(s: State) {
    && (forall t, i | t in s.senders && 0 <= i < |s.origins| :: s.origins[i].request != RequestOf(s.senders[t]))
    && forall t, u | t in s.senders && u in s.senders && t != u :: RequestOf(s.senders[t]) != RequestOf(s.senders[u])
  }

  predicate Sending(s: State) {
    Counters(s) && Numbering(s) && Traced(s) && OnceOnWire(s) && OnceInHand(s)
  }

  predicate SenderStep(step: Step) {
    step.Allocate? || step.LoadAck? || step.MakeKeepAlive? || step.MakeControl? || step.Lock? || step.Write?
  }

  lemma AnswersLater(s: State, s': State, f: Frame, origin: Origin)
    requires Answers(s, f, origin) && s.requests <= s'.requests && s.begun <= s'.begun
    ensures Answers(s', f, origin)
  {
    assert s'.begun[..origin.seen] == s.begun[..origin.seen];
    assert s'.requests[origin.request] == s.requests[origin.request];
  }

  lemma HeldLater(s: State, s': State, t: nat)
    requires t in s.senders && Held(s, t) && s.requests <= s'.requests && s.begun <= s'.begun
    requires t in s'.senders && s'.senders[t] == s.senders[t]
    ensures Held(s', t)
  {
    if s.senders[t].Ready? {
      AnswersLater(s, s', s.senders[t].frame, s.senders[t].origin);
    } else {
      assert s'.requests[s.senders[t].request] == s.requests[s.senders[t].request];
    }
  }

  lemma LastIdSnoc(begun: seq<Frame>, f: Frame)
    ensures LastId(begun + [f]) == if f.kind == REGULAR then f.id else LastId(begun)
  {
    assert (begun + [f])[..|begun|] == begun;
  }

  lemma CountersStep(s: State, step: Step)
    requires Counters(s) && Enabled(s, step)
    ensures Counters(Do(s, step))
  {
    if step.Begin? { LastIdSnoc(s.begun, s.reader.todo[0]); }
  }

  lemma NumberingStep(s: State, step: Step)
    requires Numbering(s) && Enabled(s, step)
    ensures Numbering(Do(s, step))
  {
  }

  /** Records only grow. */
  lemma RecordsGrow(s: State, step: Step)
    requires Enabled(s, step)
    ensures s.requests <= Do(s, step).requests && s.begun <= Do(s, step).begun
  {
  }

  lemma WireTracedStep(s: State, step: Step)
    requires Traced(s) && Enabled(s, step)
    ensures var s' := Do(s, step);
            && |s'.origins| == |s'.core.wire|
            && forall i | 0 <= i < |s'.origins| :: Answers(s', s'.core.wire[i], s'.origins[i])
  {
    var s' := Do(s, step);
    RecordsGrow(s, step);
    forall i | 0 <= i < |s'.origins| ensures Answers(s', s'.core.wire[i], s'.origins[i]) {
      if i < |s.origins| {
        AnswersLater(s, s', s.core.wire[i], s.origins[i]);
      } else {
        assert Held(s, s.writing.value);
      }
    }
  }

  lemma HandsTracedStep(s: State, step: Step, t: nat)
    requires Counters(s) && Traced(s) && Enabled(s, step) && t in Do(s, step).senders
    ensures Held(Do(s, step), t)
  {
    var s' := Do(s, step);
    RecordsGrow(s, step);
    if t in s.senders && s'.senders[t] == s.senders[t] {
      HeldLater(s, s', t);
    } else {
      assert s.begun[..|s.begun|] == s.begun;
      if t in s.senders { assert Held(s, t); }
    }
  }

  /** Requests so far are numbered below those to come. */
  lemma RequestsBounded(s: State)
    requires Traced(s)
    ensures forall i | 0 <= i < |s.origins| :: s.origins[i].request < |s.requests|
    ensures forall t | t in s.senders :: RequestOf(s.senders[t]) < |s.requests|
  {
    forall i | 0 <= i < |s.origins| ensures s.origins[i].request < |s.requests| {
      assert Answers(s, s.core.wire[i], s.origins[i]);
    }
    forall t | t in s.senders ensures RequestOf(s.senders[t]) < |s.requests| { assert Held(s, t); }
  }

  /** A sender more, or one with the same request as before. */
  lemma OnceAsked(s: State, s': State, t: nat)
    requires Traced(s) && OnceOnWire(s) && OnceInHand(s) && s'.origins == s.origins
    requires t in s'.senders && s'.senders == s.senders[t := s'.senders[t]]
    requires if t in s.senders then RequestOf(s'.senders[t]) == RequestOf(s.senders[t])
             else RequestOf(s'.senders[t]) == |s.requests|
    ensures OnceOnWire(s') && OnceInHand(s')
  {
    RequestsBounded(s);
  }

  /** A sender is done, its request perhaps on the wire. */
  lemma OnceDone(s: State, s': State, t: nat)
    requires OnceOnWire(s) && OnceInHand(s) && t in s.senders && s.senders[t].Ready? && s'.senders == s.senders - {t}
    requires s'.origins == s.origins || s'.origins == s.origins + [s.senders[t].origin]
    ensures OnceOnWire(s') && OnceInHand(s')
  {
  }

  lemma OnceSame(s: State, s': State)
    requires OnceOnWire(s) && OnceInHand(s) && s'.origins == s.origins && s'.senders == s.senders
    ensures OnceOnWire(s') && OnceInHand(s')
  {
  }

  lemma OnceStep(s: State, step: Step)
    requires Traced(s) && OnceOnWire(s) && OnceInHand(s) && Enabled(s, step) && SenderStep(step)
    ensures OnceOnWire(Do(s, step)) && OnceInHand(Do(s, step))
  {
    var s' := Do(s, step);
    if step.Write? {
      OnceDone(s, s', s.writing.value);
    } else if step.Lock? {
      if s.core.closed { OnceDone(s, s', step.t); } else { OnceSame(s, s'); }
    } else {
      OnceAsked(s, s', step.t);
    }
  }

  lemma SendingStep(s: State, step: Step)
    requires Sending(s) && Enabled(s, step)
    ensures Sending(Do(s, step))
  {
    CountersStep(s, step);
    NumberingStep(s, step);
    WireTracedStep(s, step);
    forall t | t in Do(s, step).senders ensures Held(Do(s, step), t) { HandsTracedStep(s, step, t); }
    if SenderStep(step) { OnceStep(s, step); } else { OnceSame(s, Do(s, step)); }
  }

  lemma {:induction false} SendingRun(s: State, steps: seq<Step>)
    requires Sending(s) && Runs(s, steps)
    ensures Sending(After(s, steps))
    decreases |steps|
  {
    if steps != [] {
      SendingStep(s, steps[0]);
      SendingRun(Do(s, steps[0]), steps[1..]);
    }
  }

  /** What the steps ask to be sent, `sends` Regular sends having gone before. */
  function AskedBy(steps: seq<Step>, sends: nat): seq<Request> {
    if steps == [] then [] else
    match steps[0]
    case Allocate(_, payload) => [Regular(sends + 1, payload)] + AskedBy(steps[1..], sends + 1)
    case MakeControl(_, payload) => [Control(payload)] + AskedBy(steps[1..], sends)
    case MakeKeepAlive(_) => [KeepAlive] + AskedBy(steps[1..], sends)
    case _ => AskedBy(steps[1..], sends)
  }

  lemma {:induction false} RequestsAre(s: State, steps: seq<Step>)
    requires Runs(s, steps)
    ensures After(s, steps).requests == s.requests + AskedBy(steps, s.sends)
    decreases |steps|
  {
    if steps != [] {
      RequestsAre(Do(s, steps[0]), steps[1..]);
    }
  }

  /** Every request is the wish of one step, with the payload that this step was given. */
  lemma {:induction false} AskedFrom(steps: seq<Step>, sends: nat, i: nat) returns (k: nat)
    requires i < |AskedBy(steps, sends)|
    ensures k < |steps|
    ensures match AskedBy(steps, sends)[i]
            case Regular(_, payload) => steps[k].Allocate? && steps[k].payload == payload
            case Control(payload) => steps[k].MakeControl? && steps[k].payload == payload
            case KeepAlive => steps[k].MakeKeepAlive?
    decreases |steps|
  {
    var asks := steps[0].Allocate? || steps[0].MakeControl? || steps[0].MakeKeepAlive?;
    if asks && i == 0 {
      k := 0;
    } else {
      k := AskedFrom(steps[1..], if steps[0].Allocate? then sends + 1 else sends, if asks then i - 1 else i);
      k := k + 1;
    }
  }

  /**
   Over every run, each frame on the wire is what one step asked for: a Regular frame with the payload
   and the number of that send, a Control frame with its payload, a bare keep-alive; acknowledging the last
   Regular frame begun when it was made. Nothing asked for once is written twice.
   */
  lemma WireIsWhatWasAsked(steps: seq<Step>)
    requires Runs(START, steps)
    ensures var s, asked := After(START, steps), AskedBy(steps, 0);
            && |s.origins| == |s.core.wire|
            && (forall i | 0 <= i < |s.core.wire| ::
                  var f, origin := s.core.wire[i], s.origins[i];
                  && origin.request < |asked| && origin.seen <= |s.begun|
                  && match asked[origin.request]
                     case Regular(serial, payload) =>
                       && f.kind == REGULAR && f.payload == payload && f.id == ToU32(serial)
                       && f.ack == LastId(s.begun[..origin.seen])
                     case Control(payload) => f.kind == CONTROL && f.payload == payload && f.ack == 0
                     case KeepAlive =>
                       f.kind == KEEP_ALIVE && f.payload == [] && f.ack == LastId(s.begun[..origin.seen]))
            && (forall i, j | 0 <= i < j < |s.core.wire| :: s.origins[i].request != s.origins[j].request)
  {
    SendingRun(START, steps);
    RequestsAre(START, steps);
    var s, asked := After(START, steps), AskedBy(steps, 0);
    assert s.requests == asked;
    forall i | 0 <= i < |s.core.wire| ensures Answers(s, s.core.wire[i], s.origins[i]) {
      assert Answers(s, s.core.wire[i], s.origins[i]);
    }
  }

  /** Zero, or the id of a Regular frame whose delivery has begun. */
  predicate Known(begun: seq<Frame>, ack: uint32) {
    ack == 0 || exists i | 0 <= i < |begun| :: begun[i].kind == REGULAR && begun[i].id == ack
  }

  lemma {:induction false} LastIdKnown(begun: seq<Frame>, n: nat)
    requires n <= |begun|
    ensures Known(begun, LastId(begun[..n]))
  {
    if n > 0 {
      assert begun[..n][..n - 1] == begun[..n - 1];
      LastIdKnown(begun, n - 1);
    }
  }

  /** Every acknowledgement on the wire is 0 or the id of a Regular frame decoded before it was read. */
  lemma WireAcks(steps: seq<Step>, i: nat)
    requires Runs(START, steps) && i < |After(START, steps).core.wire|
    ensures Known(After(START, steps).begun, After(START, steps).core.wire[i].ack)
  {
    SendingRun(START, steps);
    var s := After(START, steps);
    assert Answers(s, s.core.wire[i], s.origins[i]);
    LastIdKnown(s.begun, s.origins[i].seen);
  }

  /** The number of the send that a frame on the wire comes from, 0 for other frames. */
  function Serial(s: State, i: nat): nat
    requires i < |s.origins| && s.origins[i].request < |s.requests|
  {
    var request := s.requests[s.origins[i].request];
    if request.Regular? then request.serial else 0
  }

  /** Two Regular frames on the wire share an id exactly when their send counts agree modulo 2^32. */
  lemma WireIdsExactly(steps: seq<Step>, i: nat, j: nat)
    requires Runs(START, steps)
    requires i < |After(START, steps).core.wire| && j < |After(START, steps).core.wire| && i != j
    requires After(START, steps).core.wire[i].kind == REGULAR && After(START, steps).core.wire[j].kind == REGULAR
    ensures var s := After(START, steps);
            && i < |s.origins| && j < |s.origins|
            && s.origins[i].request < |s.requests| && s.origins[j].request < |s.requests|
            && Serial(s, i) != Serial(s, j)
            && (s.core.wire[i].id == s.core.wire[j].id <==> Serial(s, i) % U32 == Serial(s, j) % U32)
            && (s.sends <= U32 ==> s.core.wire[i].id != s.core.wire[j].id)
  {
    SendingRun(START, steps);
    var s := After(START, steps);
    assert Answers(s, s.core.wire[i], s.origins[i]) && Answers(s, s.core.wire[j], s.origins[j]);
    var r, q := s.origins[i].request, s.origins[j].request;
    assert r != q && s.requests[r].Regular? && s.requests[q].Regular?;
    if s.sends <= U32 {
      SmallResidues(Serial(s, i), Serial(s, j));
    }
  }

  lemma SmallResidues(a: nat, b: nat)
    requires 1 <= a <= U32 && 1 <= b <= U32 && a != b
    ensures a % U32 != b % U32
  {
  }

  // ---------- Closing ----------

  lemma {:induction false} ClosedStays(s: State, steps: seq<Step>)
    requires ClosingOnce(s) && Runs(s, steps)
    requires (s.core.closed && s.core.onceDone) || exists i | 0 <= i < |steps| :: steps[i].Close?
    ensures After(s, steps).core.closed && After(s, steps).core.onceDone && ClosingOnce(After(s, steps))
    decreases |steps|
  {
    if steps != [] {
      ClosingOnceStep(s, steps[0]);
      var rest := steps[1..];
      assert forall i | 0 <= i < |rest| :: rest[i] == steps[i + 1];
      if !(s.core.closed && s.core.onceDone) && !steps[0].Close? {
        var i :| 0 <= i < |steps| && steps[i].Close?;
        assert rest[i - 1].Close?;
      }
      assert steps[0].Close? ==> Do(s, steps[0]).core.closed && Do(s, steps[0]).core.onceDone;
      assert s.core.onceDone ==> Do(s, steps[0]).core.onceDone;
      ClosedStays(Do(s, steps[0]), rest);
    }
  }

  /** After a Close, on every run, the connection is closed and closeCh has been closed, once. */
  lemma CloseCloses(steps: seq<Step>)
    requires Runs(START, steps) && exists i | 0 <= i < |steps| :: steps[i].Close?
    ensures After(START, steps).core.closed && After(START, steps).core.closings == 1
  {
    ClosedStays(START, steps);
  }

  // ---------- The methods of the source ----------

  datatype Delivered = Sent | ConnectionClosed | MustWait

  class Connection {
    var closed: bool
    var onceDone: bool
    var closings: nat
    var regularClosed: bool
    var outgoingID: uint32
    var incomingAck: uint32
    var regularCh: seq<Frame>
    var controlCh: seq<Frame>
    var wire: seq<Frame>

    ghost function View(): Core
      reads this
    {
      Core(closed, onceDone, closings, regularClosed, outgoingID, incomingAck, regularCh, controlCh, wire)
    }

    constructor ()
      ensures View() == OPEN_CORE
    {
      closed, onceDone, closings, regularClosed := false, false, 0, false;
      outgoingID, incomingAck, regularCh, controlCh, wire := 0, 0, [], [], [];
    }

    method SignalClosed()
      modifies this
      ensures View() == Signal(old(View()))
    {
      if !onceDone {
        onceDone := true;
        closings := closings + 1;
      }
    }

    /** The select of deliverFrame; `abort` is its choice when both cases are ready. */
    method DeliverFrame(f: Frame, abort: bool) returns (r: Delivered)
      modifies this
      ensures var c := if f.kind == REGULAR then old(View()).(incomingAck := f.id) else old(View());
              && (r == Sent ==> if Queued(f) then HasRoom(c, f) && View() == Push(c, f) else View() == c)
              && (r == ConnectionClosed ==> Queued(f) && c.closings > 0 && View() == c)
              && (r == MustWait ==> Queued(f) && !HasRoom(c, f) && c.closings == 0 && View() == c)
    {
      if f.kind == REGULAR {
        incomingAck := f.id;
      }
      if !Queued(f) {
        return Sent;
      }
      var room := if f.kind == REGULAR then |regularCh| < REGULAR_CAPACITY else |controlCh| < CONTROL_CAPACITY;
      if closings > 0 && (abort || !room) {
        return ConnectionClosed;
      }
      if !room {
        return MustWait;
      }
      if f.kind == REGULAR {
        regularCh := regularCh + [f];
      } else {
        controlCh := controlCh + [f];
      }
      return Sent;
    }

    method SendFrame(f: Frame, reaches: bool) returns (ok: bool)
      modifies this
      ensures View() == WriteFrame(old(View()), f, reaches) && ok == (!old(closed) && reaches)
      ensures wire == if ok then old(wire) + [f] else old(wire)
    {
      if closed || !reaches {
        return false;
      }
      wire := wire + [f];
      return true;
    }

    /** With nothing in between, SendRegular is the steps Allocate, LoadAck, Lock and Write. */
    method SendRegular(payload: seq<byte>, reaches: bool) returns (id: uint32, ok: bool)
      modifies this
      ensures id == ToU32(old(outgoingID) + 1) && ok == (!old(closed) && reaches)
      ensures View() == WriteFrame(Allocated(old(View())), Frame(REGULAR, id, old(incomingAck), payload), reaches)
      ensures wire == if ok then old(wire) + [Frame(REGULAR, id, old(incomingAck), payload)] else old(wire)
    {
      outgoingID := ToU32(outgoingID + 1);
      id := outgoingID;
      ok := SendFrame(Frame(REGULAR, id, incomingAck, payload), reaches);
    }

    method Close()
      modifies this
      ensures View() == Signal(old(View()).(closed := true))
    {
      closed := true;
      SignalClosed();
    }
  }
}
