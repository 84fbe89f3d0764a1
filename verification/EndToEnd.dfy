/**
 The wire codec, the connection and the dispatcher put together: what a call returns is what the
 server answered to it.
 */
module EndToEnd {
  import opened Wrappers
  import opened Words
  import opened Frames
  import opened Serialize
  import Conn
  import Ipc

  /** A response or an event of the server: its kind and id, its body, and the header of the frame that carries it. */
  datatype ServerMessage = ServerMessage(kind: int, id: int, body: Value, frameId: uint32, frameAck: uint32)

  function PayloadOf(j: Json, a: ServerMessage): seq<byte> {
    Ser(j, Arr([Int(a.kind), Int(a.id)])) + Ser(j, a.body)
  }

  function ResponseOf(j: Json, a: ServerMessage): Ipc.Response {
    Ipc.Response(a.kind, a.id, Norm(j, a.body))
  }

  predicate IsAnswer(j: Json, a: ServerMessage) {
    && (a.kind == Ipc.RESPONSE_SUCCESS || a.kind == Ipc.RESPONSE_ERROR || a.kind == Ipc.RESPONSE_ERROR_OBJ)
    && Encodable(j, a.body)
  }

  predicate IsEvent(j: Json, a: ServerMessage) {
    a.kind == Ipc.RESPONSE_EVENT && Encodable(j, a.body)
  }

  lemma HeaderEncodes(j: Json, kind: int, id: int)
    requires 0 <= kind < U32
    ensures Encodable(j, Arr([Int(kind), Int(id)]))
    ensures Norm(j, Arr([Int(kind), Int(id)])) == Arr([Int(kind), Int(ToU32(id))])
  {
    var elems := [Int(kind), Int(id)];
    assert elems[1..] == [Int(id)] && elems[1..][1..] == [];
    assert AllEncodable(j, elems[1..]);
    assert NormAll(j, elems[1..]) == [Int(ToU32(id))];
    assert NormAll(j, elems) == [Int(kind), Int(ToU32(id))];
  }

  lemma PayloadClassifies(j: Json, a: ServerMessage)
    requires 0 <= a.kind < U32 && Encodable(j, a.body)
    ensures Ipc.Classify(j, PayloadOf(j, a)) == Ipc.ClassifyParts(Arr([Int(a.kind), Int(ToU32(a.id))]), Norm(j, a.body))
  {
    var header := Arr([Int(a.kind), Int(a.id)]);
    HeaderEncodes(j, a.kind, a.id);
    Serialize.MessageSplits(j, header, a.body, []);
    assert PayloadOf(j, a) + [] == PayloadOf(j, a);
  }

  /** The dispatcher recovers an answer exactly when its id fits the 32 bits that an integer has on the wire. */
  lemma AnswerRecoveredExactly(j: Json, a: ServerMessage)
    requires IsAnswer(j, a)
    ensures Ipc.Classify(j, PayloadOf(j, a)) == Ipc.Reply(ResponseOf(j, a)) <==> 0 <= a.id < U32
  {
    PayloadClassifies(j, a);
  }

  /** And so an event. */
  lemma EventRecoveredExactly(j: Json, a: ServerMessage)
    requires IsEvent(j, a)
    ensures Ipc.Classify(j, PayloadOf(j, a)) == Ipc.Event(a.id, Norm(j, a.body)) <==> 0 <= a.id < U32
  {
    PayloadClassifies(j, a);
  }

  /** The message that a session starts with, before any call: it is no answer, so traffic may carry it. */
  lemma InitializeRecovered(j: Json, body: Value)
    requires Encodable(j, body)
    ensures Ipc.Classify(j, Ser(j, Arr([Int(Ipc.RESPONSE_INITIALIZE)])) + Ser(j, body)) == Ipc.Initialize
  {
    var elems := [Int(Ipc.RESPONSE_INITIALIZE)];
    var header := Arr(elems);
    assert elems[1..] == [];
    assert AllEncodable(j, elems[1..]) && NormAll(j, elems[1..]) == [];
    assert NormAll(j, elems) == elems;
    Serialize.MessageSplits(j, header, body, []);
    assert Ser(j, header) + Ser(j, body) + [] == Ser(j, header) + Ser(j, body);
  }

  // ---------- Messages of several frames ----------

  function Messages(traffic: seq<seq<Frame>>): seq<seq<byte>> {
    seq(|traffic|, i requires 0 <= i < |traffic| => Concat(traffic[i]))
  }

  function Flatten(traffic: seq<seq<Frame>>): seq<Frame> {
    if traffic == [] then [] else Flatten(traffic[..|traffic| - 1]) + traffic[|traffic| - 1]
  }

  /** However frames are batched into messages, the read loop sees them in their order. */
  lemma {:induction false} BatchingIsInvisible(traffic: seq<seq<Frame>>)
    requires forall i | 0 <= i < |traffic| :: AllSized(traffic[i])
    ensures Conn.AllFrames(Messages(traffic)) == Flatten(traffic)
  {
    if traffic != [] {
      var n := |traffic| - 1;
      BatchingIsInvisible(traffic[..n]);
      assert Messages(traffic)[..n] == Messages(traffic[..n]);
      BatchDecodes(traffic[n], []);
      assert Concat(traffic[n]) + [] == Concat(traffic[n]);
      assert FramesOf([]) == [];
      assert traffic[n] + [] == traffic[n];
    }
  }

  // ---------- The whole path ----------

  /** One Regular frame of the server: an answer, an event, or anything else that is no reply to the dispatcher. */
  datatype Item = Answering(message: ServerMessage) | Firing(message: ServerMessage) | Other(frame: Frame)

  function FrameOf(j: Json, item: Item): Frame {
    if item.Other? then item.frame
    else Frame(REGULAR, item.message.frameId, item.message.frameAck, PayloadOf(j, item.message))
  }

  predicate Proper(j: Json, item: Item) {
    match item
    case Answering(a) => IsAnswer(j, a) && 0 <= a.id < U32
    case Firing(a) => IsEvent(j, a) && 0 <= a.id < U32
    case Other(frame) => !Ipc.Classify(j, frame.payload).Reply?
  }

  /** What the dispatcher must make of it. */
  function MessageOf(j: Json, item: Item): (m: Ipc.Message)
    requires Proper(j, item)
    ensures m.Reply? <==> item.Answering?
  {
    match item
    case Answering(a) => Ipc.Reply(ResponseOf(j, a))
    case Firing(a) => Ipc.Event(a.id, Norm(j, a.body))
    case Other(frame) => Ipc.Classify(j, frame.payload)
  }

  function MessagesOf(j: Json, items: seq<Item>): seq<Ipc.Message>
    requires forall i | 0 <= i < |items| :: Proper(j, items[i])
  {
    seq(|items|, i requires 0 <= i < |items| => MessageOf(j, items[i]))
  }

  function Payloads(fs: seq<Frame>): seq<seq<byte>> {
    seq(|fs|, i requires 0 <= i < |fs| => fs[i].payload)
  }

  /** The Regular frames of the traffic are the items, in order, whatever else it carries. */
  predicate Carries(j: Json, traffic: seq<seq<Frame>>, items: seq<Item>) {
    && (forall i | 0 <= i < |traffic| :: AllSized(traffic[i]))
    && (forall i | 0 <= i < |items| :: Proper(j, items[i]))
    && Conn.Of(REGULAR, Flatten(traffic)) == seq(|items|, i requires 0 <= i < |items| => FrameOf(j, items[i]))
  }

  /** What the dispatcher makes of the frames it takes is what the server sent, in order, from the first on. */
  lemma {:induction false} LogIsTraffic(
      j: Json, conn: Conn.State, steps: seq<Conn.Step>, traffic: seq<seq<Frame>>, items: seq<Item>)
    requires Conn.Runs(Conn.START, steps) && conn == Conn.After(Conn.START, steps)
    requires conn.received == Messages(traffic) && Carries(j, traffic, items)
    ensures var log := Ipc.ClassifyAll(j, Payloads(conn.regularOut));
            && log <= MessagesOf(j, items)
            && (conn.reader.Waiting? && conn.core.regularCh == [] ==> log == MessagesOf(j, items))
  {
    Conn.InOrderNoLoss(steps);
    BatchingIsInvisible(traffic);
    var all := Conn.Of(REGULAR, Flatten(traffic));
    var out := conn.regularOut;
    assert out + conn.core.regularCh <= all;
    forall i | 0 <= i < |out|
      ensures Ipc.Classify(j, out[i].payload) == MessageOf(j, items[i])
    {
      assert out[i] == (out + conn.core.regularCh)[i] == all[i] == FrameOf(j, items[i]);
      match items[i]
      case Answering(a) => AnswerRecoveredExactly(j, a);
      case Firing(a) => EventRecoveredExactly(j, a);
      case Other(_) =>
    }
  }

  predicate Answers(item: Item, id: int) {
    item.Answering? && item.message.id == id
  }

  /** Item `i` is the first answer to request `id` from position `from` on. */
  predicate FirstAnswer(items: seq<Item>, from: nat, id: int, i: nat) {
    from <= i < |items| && Answers(items[i], id) && forall k | from <= k < i :: !Answers(items[k], id)
  }

  lemma {:induction false} FirstReplyIsFirstAnswer(j: Json, log: seq<Ipc.Message>, items: seq<Item>, from: nat, id: int)
    returns (i: nat)
    requires (forall k | 0 <= k < |items| :: Proper(j, items[k])) && log <= MessagesOf(j, items)
    ensures match Ipc.FirstReply(log, from, id)
            case Some(r) => i < |log| && FirstAnswer(items, from, id, i) && r == ResponseOf(j, items[i].message)
            case None => forall k | from <= k < |log| :: !Answers(items[k], id)
  {
    if |log| <= from {
      i := 0;
    } else {
      var n := |log| - 1;
      i := FirstReplyIsFirstAnswer(j, log[..n], items, from, id);
      assert log[n] == MessageOf(j, items[n]);
      if Ipc.FirstReply(log[..n], from, id).None? && Answers(items[n], id) {
        i := n;
      }
    }
  }

  /**
   Any run of the connection, receiving the items however they are framed and batched, and any run of the
   calls and listens whose dispatcher has processed some of the frames it took, in order.
   */
  ghost predicate Session(
      j: Json, connSteps: seq<Conn.Step>, ipcSteps: seq<Ipc.Step>, traffic: seq<seq<Frame>>, items: seq<Item>)
  {
    && Conn.Runs(Conn.START, connSteps) && Ipc.Runs(Ipc.START, ipcSteps)
    && Carries(j, traffic, items)
    && Conn.After(Conn.START, connSteps).received == Messages(traffic)
    && Ipc.After(Ipc.START, ipcSteps).log <= Ipc.ClassifyAll(j, Payloads(Conn.After(Conn.START, connSteps).regularOut))
  }

  lemma SessionLog(
      j: Json, connSteps: seq<Conn.Step>, ipcSteps: seq<Ipc.Step>, traffic: seq<seq<Frame>>, items: seq<Item>)
    requires Session(j, connSteps, ipcSteps, traffic, items)
    ensures Ipc.After(Ipc.START, ipcSteps).log <= MessagesOf(j, items)
  {
    LogIsTraffic(j, Conn.After(Conn.START, connSteps), connSteps, traffic, items);
  }

  lemma SamePart<T>(a: seq<T>, b: seq<T>, from: nat, to: nat)
    requires a <= b && from <= to <= |a|
    ensures a[from..to] == b[from..to]
  {
  }

  /**
   Over every interleaving of the connection and of the calls, and however the server's frames, answers
   or not, are batched: a call that returns a response returns the server's first answer to its own id
   sent since it registered, with the body as it reads back; and when all traffic has been dispatched,
   a waiting call can return exactly if its answer is among those sent.
   */
  lemma CallsReturnTheirAnswers(
      j: Json, connSteps: seq<Conn.Step>, ipcSteps: seq<Ipc.Step>, traffic: seq<seq<Frame>>, items: seq<Item>, c: nat)
    returns (i: nat)
    requires Session(j, connSteps, ipcSteps, traffic, items)
    requires c < |Ipc.After(Ipc.START, ipcSteps).calls|
    ensures var call := Ipc.After(Ipc.START, ipcSteps).calls[c];
            call.pc.Returned? && call.pc.outcome.Got? ==>
              FirstAnswer(items, call.since, call.id, i) && call.pc.outcome.response == ResponseOf(j, items[i].message)
    ensures var conn, ipc := Conn.After(Conn.START, connSteps), Ipc.After(Ipc.START, ipcSteps);
            var call := ipc.calls[c];
            && conn.reader.Waiting? && conn.core.regularCh == [] && |ipc.log| == |conn.regularOut|
            && ipc.hand.Idle? && call.pc.Waiting? ==>
              (Ipc.Enabled(ipc, Ipc.Receive(c)) <==> exists k | call.since <= k < |items| :: Answers(items[k], call.id))
  {
    var conn, ipc := Conn.After(Conn.START, connSteps), Ipc.After(Ipc.START, ipcSteps);
    var call := ipc.calls[c];
    LogIsTraffic(j, conn, connSteps, traffic, items);
    i := FirstReplyIsFirstAnswer(j, ipc.log, items, call.since, call.id);
    if call.pc.Returned? && call.pc.outcome.Got? {
      Ipc.CallGetsItsFirstReply(ipcSteps, c, call.pc.outcome.response);
    } else if call.pc.Waiting? && ipc.hand.Idle? {
      Ipc.AnsweredCallCanReceive(ipcSteps, c);
    }
  }

  /**
   The same for events: the handlers of a listener are started with the bodies of exactly the events
   that the server sent it while it was subscribed, in the order sent.
   */
  lemma ListenersHearTheirEvents(
      j: Json, connSteps: seq<Conn.Step>, ipcSteps: seq<Ipc.Step>, traffic: seq<seq<Frame>>, items: seq<Item>, l: nat)
    requires Session(j, connSteps, ipcSteps, traffic, items)
    requires l < |Ipc.After(Ipc.START, ipcSteps).listeners| && !Ipc.After(Ipc.START, ipcSteps).listeners[l].pc.Drawn?
    ensures var ipc := Ipc.After(Ipc.START, ipcSteps);
            var listener := ipc.listeners[l];
            var end := if listener.pc.Ended? then listener.until else |ipc.log|;
            && listener.since <= end <= |items|
            && Ipc.StartedFor(ipc.fired, l) == Ipc.EventBodies(MessagesOf(j, items)[listener.since..end], listener.id)
  {
    var ipc := Ipc.After(Ipc.START, ipcSteps);
    SessionLog(j, connSteps, ipcSteps, traffic, items);
    Ipc.EventsReachTheirListener(ipcSteps, l);
    var listener := ipc.listeners[l];
    SamePart(ipc.log, MessagesOf(j, items), listener.since, if listener.pc.Ended? then listener.until else |ipc.log|);
  }

  // ---------- The other direction ----------

  /** The header of a call's request. */
  function CallHeader(id: int, channelName: seq<byte>, command: seq<byte>): Value {
    Arr([Int(Ipc.REQUEST_PROMISE), Int(id), Str(channelName), Str(command)])
  }

  /** The server reads the header of a call as it was written, exactly when the id fits 32 bits. */
  lemma CallHeaderSurvivesExactly(j: Json, id: int, channelName: seq<byte>, command: seq<byte>)
    requires |channelName| < U32 && |command| < U32
    ensures Encodable(j, CallHeader(id, channelName, command))
    ensures Norm(j, CallHeader(id, channelName, command)) == CallHeader(id, channelName, command) <==> 0 <= id < U32
  {
    var elems := [Int(Ipc.REQUEST_PROMISE), Int(id), Str(channelName), Str(command)];
    var three, two, one := elems[1..], elems[2..], elems[3..];
    assert three[1..] == two && two[1..] == one && one[1..] == [];
    assert NormAll(j, one[1..]) == [] && AllEncodable(j, one[1..]);
    assert NormAll(j, one) == [Str(command)] && AllEncodable(j, one);
    assert NormAll(j, two) == [Str(channelName), Str(command)] && AllEncodable(j, two);
    assert NormAll(j, three) == [Int(ToU32(id)), Str(channelName), Str(command)] && AllEncodable(j, three);
    assert NormAll(j, elems) == [Int(Ipc.REQUEST_PROMISE), Int(ToU32(id)), Str(channelName), Str(command)];
    assert elems[1] == Int(id);
  }

  lemma AloneDecodes(f: Frame)
    requires Sized(f)
    ensures FramesOf(Bytes(f)) == [f]
  {
    FirstFrame(f, []);
    assert Bytes(f) + [] == Bytes(f) && FramesOf([]) == [];
  }

  lemma PayloadDecodes(j: Json, header: Value, arg: Value, payload: seq<byte>)
    requires Encodable(j, header) && Encodable(j, arg) && payload == Ser(j, header) + Ser(j, arg)
    ensures Parse(j, payload, 0) == Ok((Norm(j, header), |Ser(j, header)|))
    ensures Parse(j, payload, |Ser(j, header)|) == Ok((Norm(j, arg), |payload|))
  {
    Serialize.MessageSplits(j, header, arg, []);
    assert payload + [] == payload;
  }

  /**
   Over every run of the connection, a Regular frame on the wire that was asked for with a header and an
   argument decodes, as a message of its own, to itself, and its payload to that header and that argument.
   */
  lemma RequestsReachTheServer(j: Json, steps: seq<Conn.Step>, i: nat, header: Value, arg: Value)
    requires Conn.Runs(Conn.START, steps) && i < |Conn.After(Conn.START, steps).core.wire|
    requires Encodable(j, header) && Encodable(j, arg) && |Ser(j, header) + Ser(j, arg)| <= MAX_PAYLOAD
    requires var s, asked := Conn.After(Conn.START, steps), Conn.AskedBy(steps, 0);
             && i < |s.origins| && s.origins[i].request < |asked| && asked[s.origins[i].request].Regular?
             && asked[s.origins[i].request].payload == Ser(j, header) + Ser(j, arg)
    ensures var f := Conn.After(Conn.START, steps).core.wire[i];
            && FramesOf(Bytes(f)) == [f] && f.kind == REGULAR
            && Parse(j, f.payload, 0) == Ok((Norm(j, header), |Ser(j, header)|))
            && Parse(j, f.payload, |Ser(j, header)|) == Ok((Norm(j, arg), |f.payload|))
  {
    Conn.WireIsWhatWasAsked(steps);
    var f := Conn.After(Conn.START, steps).core.wire[i];
    assert f.kind == REGULAR && f.payload == Ser(j, header) + Ser(j, arg);
    AloneDecodes(f);
    PayloadDecodes(j, header, arg, f.payload);
  }
}
