/**
 What an open file means: a byte sequence with a position. `Step` is what the backends' file types
 do, loading the content lazily; `EagerStep` is the same file with its content at hand from the
 start; `ByteAt` and `Length` say, from the history of edits alone, what the content must be.
 */
module FileSpec {
  import opened Wrappers
  import opened Words

  datatype Backend = Nfs | Webdav

  /** What ReadFile on the remote answers. */
  datatype Remote = Data(bytes: seq<byte>) | Missing | Unreachable

  datatype IoError =
    | NoError | Eof | AlreadyClosed | NotExist | RemoteFailed | NegativeSeek | BadWhence | WriteFailed | IsDirectory

  const SEEK_START := 0
  const SEEK_CURRENT := 1
  const SEEK_END := 2

  datatype Op =
    | Read(n: nat) | ReadAt(n: nat, off: nat) | Write(bytes: seq<byte>)
    | Seek(offset: int, whence: int) | Truncate(size: nat) | Close(accepted: bool)

  /** `flushed` is the content of the WriteFile call that the operation made, if it made one. */
  datatype Out = Out(data: seq<byte>, number: int, error: IoError, flushed: Option<seq<byte>>)

  function Plain(data: seq<byte>, number: int, error: IoError): Out {
    Out(data, number, error, None)
  }

  // ---------- Byte sequences ----------

  function Min(a: nat, b: nat): nat {
    if a < b then a else b
  }

  function Max(a: nat, b: nat): nat {
    if a < b then b else a
  }

  /** Up to n bytes from position `at`. */
  function Slice(c: seq<byte>, at: nat, n: nat): (s: seq<byte>)
    ensures |s| <= n
  {
    if at >= |c| then [] else c[at..Min(at + n, |c|)]
  }

  function SliceOut(c: seq<byte>, at: nat, n: nat): Out {
    var s := Slice(c, at, n);
    Plain(s, |s|, if at >= |c| || |s| < n then Eof else NoError)
  }

  function Zeros(n: nat): seq<byte> {
    seq(n, i => 0)
  }

  function Overlay(c: seq<byte>, at: nat, p: seq<byte>): seq<byte> {
    var base := if at + |p| > |c| then c + Zeros(at + |p| - |c|) else c;
    base[..at] + p + base[at + |p|..]
  }

  function Resize(c: seq<byte>, size: nat): seq<byte> {
    if size < |c| then c[..size] else c + Zeros(size - |c|)
  }

  // ---------- The lazy file ----------

  /** `mayCreate` is the O_CREATE flag that the WebDAV file keeps. */
  datatype File = File(
    backend: Backend, mayCreate: bool, content: Option<seq<byte>>, pos: nat, dirty: bool, closed: bool)

  function LoadedFrom(f: File, remote: Remote): Result<seq<byte>, IoError> {
    match remote
    case Data(bytes) => Ok(bytes)
    case Missing => if f.backend.Nfs? || f.mayCreate then Ok([]) else Err(NotExist)
    case Unreachable => Err(RemoteFailed)
  }

  function Load(f: File, remote: Remote): (File, IoError) {
    if f.content.Some? then (f, NoError)
    else match LoadedFrom(f, remote)
      case Ok(bytes) => (f.(content := Some(bytes)), NoError)
      case Err(e) => (f, e)
  }

  function SeekTarget(pos: nat, length: nat, offset: int, whence: int): int {
    if whence == SEEK_START then offset
    else if whence == SEEK_CURRENT then pos + offset
    else if whence == SEEK_END then length + offset
    else 0
  }

  /** The operation on a file whose content is at hand. The NFS file takes an unknown whence for 0. */
  function Act(f: File, op: Op): (File, Out)
    requires f.content.Some? && !op.Close?
  {
    var c := f.content.value;
    match op
    case Read(n) => var out := SliceOut(c, f.pos, n); (f.(pos := f.pos + |out.data|), out)
    case ReadAt(n, off) => (f, SliceOut(c, off, n))
    case Write(bytes) =>
      (f.(content := Some(Overlay(c, f.pos, bytes)), pos := f.pos + |bytes|, dirty := true),
       Plain([], |bytes|, NoError))
    case Seek(offset, whence) =>
      var target := SeekTarget(f.pos, |c|, offset, whence);
      if f.backend.Webdav? && !(0 <= whence <= 2) then (f, Plain([], 0, BadWhence))
      else if target < 0 then (f, Plain([], if f.backend.Nfs? then f.pos else 0, NegativeSeek))
      else (f.(pos := target), Plain([], target, NoError))
    case Truncate(size) => (f.(content := Some(Resize(c, size)), dirty := true), Plain([], 0, NoError))
  }

  function DoClose(f: File, accepted: bool): (File, Out) {
    if f.closed then (f, Plain([], 0, NoError))
    else if !f.dirty || f.content.None? then (f.(closed := true), Plain([], 0, NoError))
    else (f.(closed := true), Out([], 0, if accepted then NoError else WriteFailed, Some(f.content.value)))
  }

  /** Only the NFS file refuses reads and writes after Close. */
  predicate Refused(f: File, op: Op) {
    f.backend.Nfs? && f.closed && (op.Read? || op.ReadAt? || op.Write?)
  }

  function Step(f: File, op: Op, remote: Remote): (File, Out) {
    if op.Close? then DoClose(f, op.accepted)
    else if Refused(f, op) then (f, Plain([], 0, AlreadyClosed))
    else
      var (g, e) := Load(f, remote);
      if e != NoError then (f, Plain([], 0, e)) else Act(g, op)
  }

  /** `remotes[i]` is what the remote would answer during operation i. */
  function Run(f: File, ops: seq<Op>, remotes: seq<Remote>): (r: (File, seq<Out>))
    requires |remotes| == |ops|
    ensures |r.1| == |ops|
    decreases |ops|
  {
    if ops == [] then (f, []) else
    var n := |ops| - 1;
    var (g, outs) := Run(f, ops[..n], remotes[..n]);
    var (h, out) := Step(g, ops[n], remotes[n]);
    (h, outs + [out])
  }

  /** Until the file has loaded its content, the remote's answer stays `remote`. */
  predicate SteadyUntilLoaded(f: File, ops: seq<Op>, remotes: seq<Remote>, remote: Remote)
    requires |remotes| == |ops|
    decreases |ops|
  {
    ops != [] ==>
      var n := |ops| - 1;
      && SteadyUntilLoaded(f, ops[..n], remotes[..n], remote)
      && (Run(f, ops[..n], remotes[..n]).0.content.None? ==> remotes[n] == remote)
  }

  // ---------- The eager file ----------

  function EagerStep(f: File, op: Op): (r: (File, Out))
    requires f.content.Some?
    ensures r.0.content.Some?
  {
    if op.Close? then DoClose(f, op.accepted)
    else if Refused(f, op) then (f, Plain([], 0, AlreadyClosed))
    else Act(f, op)
  }

  function EagerRun(f: File, ops: seq<Op>): (r: (File, seq<Out>))
    requires f.content.Some?
    ensures r.0.content.Some? && |r.1| == |ops|
  {
    if ops == [] then (f, []) else
    var (g, outs) := EagerRun(f, ops[..|ops| - 1]);
    var (h, out) := EagerStep(g, ops[|ops| - 1]);
    (h, outs + [out])
  }

  /** The lazy file is the eager one, or is it before its first load. */
  predicate Simulates(f: File, e: File, remote: Remote) {
    && e.content.Some?
    && e == f.(content := e.content)
    && (if f.content.Some? then f.content == e.content else LoadedFrom(f, remote) == Ok(e.content.value))
    && (f.dirty ==> f.content.Some?)
  }

  lemma StepSimulates(f: File, e: File, op: Op, now: Remote, remote: Remote)
    requires Simulates(f, e, remote) && (f.content.None? ==> now == remote)
    ensures Step(f, op, now).1 == EagerStep(e, op).1
    ensures Simulates(Step(f, op, now).0, EagerStep(e, op).0, remote)
  {
  }

  /**
   While the remote does not change before the first load, every run of operations on the lazily loaded
   file gives exactly the results, and issues exactly the remote writes, of the file whose content was
   read at opening.
   */
  lemma {:induction false} LazyIsEager(f: File, e: File, ops: seq<Op>, remotes: seq<Remote>, remote: Remote)
    requires |remotes| == |ops| && Simulates(f, e, remote) && SteadyUntilLoaded(f, ops, remotes, remote)
    ensures Run(f, ops, remotes).1 == EagerRun(e, ops).1
    ensures Simulates(Run(f, ops, remotes).0, EagerRun(e, ops).0, remote)
    decreases |ops|
  {
    if ops != [] {
      var n := |ops| - 1;
      LazyIsEager(f, e, ops[..n], remotes[..n], remote);
      StepSimulates(Run(f, ops[..n], remotes[..n]).0, EagerRun(e, ops[..n]).0, ops[n], remotes[n], remote);
    }
  }

  /**
   Opened unloaded, with the remote steadily answering `bytes` until the first load, the file is the file
   whose content is those bytes.
   */
  lemma OpenedIsRemote(f: File, ops: seq<Op>, remotes: seq<Remote>, bytes: seq<byte>)
    requires |remotes| == |ops| && f.content.None? && !f.dirty && SteadyUntilLoaded(f, ops, remotes, Data(bytes))
    ensures Run(f, ops, remotes).1 == EagerRun(f.(content := Some(bytes)), ops).1
  {
    LazyIsEager(f, f.(content := Some(bytes)), ops, remotes, Data(bytes));
  }

  /** A missing file is an empty one for NFS and, for WebDAV, under O_CREATE. */
  lemma MissingIsEmpty(f: File, ops: seq<Op>, remotes: seq<Remote>)
    requires |remotes| == |ops| && f.content.None? && !f.dirty && SteadyUntilLoaded(f, ops, remotes, Missing)
    requires f.backend.Nfs? || f.mayCreate
    ensures Run(f, ops, remotes).1 == EagerRun(f.(content := Some([])), ops).1
  {
    LazyIsEager(f, f.(content := Some([])), ops, remotes, Missing);
  }

  /** The operation gets as far as loading the content. */
  predicate NeedsContent(f: File, op: Op) {
    && f.content.None? && !op.Close?
    && !(f.backend.Nfs? && f.closed && (op.Read? || op.ReadAt? || op.Write?))
  }

  /** For operations that need the content, exactly for these. */
  lemma MissingIsEmptyExactly(f: File, op: Op)
    requires NeedsContent(f, op)
    ensures Step(f, op, Missing) == Step(f, op, Data([])) <==> f.backend.Nfs? || f.mayCreate
  {
  }

  /** Otherwise, and when the remote cannot be reached, the operation fails and leaves the file as it was. */
  lemma FailedLoad(f: File, op: Op)
    requires NeedsContent(f, op)
    ensures Step(f, op, Unreachable) == (f, Out([], 0, RemoteFailed, None))
    ensures f.backend.Webdav? && !f.mayCreate ==> Step(f, op, Missing) == (f, Out([], 0, NotExist, None))
  {
  }

  // ---------- One write-back ----------

  function Flushes(outs: seq<Out>): seq<seq<byte>> {
    if outs == [] then [] else
    Flushes(outs[..|outs| - 1]) + (if outs[|outs| - 1].flushed.Some? then [outs[|outs| - 1].flushed.value] else [])
  }

  /** The position of the first Close, or the end of the run. */
  function FirstClose(ops: seq<Op>): (n: nat)
    ensures n <= |ops| && (n < |ops| ==> ops[n].Close?) && forall i | 0 <= i < n :: !ops[i].Close?
  {
    if ops == [] then 0 else
    var n := FirstClose(ops[..|ops| - 1]);
    if n < |ops| - 1 then n else if ops[|ops| - 1].Close? then n else |ops|
  }

  predicate AnyEdit(ops: seq<Op>) {
    exists i | 0 <= i < |ops| :: ops[i].Write? || ops[i].Truncate?
  }

  lemma StepFacts(g: File, op: Op)
    requires g.content.Some?
    ensures var (h, out) := EagerStep(g, op);
            && h.closed == (g.closed || op.Close?)
            && (!g.closed ==> h.dirty == (g.dirty || op.Write? || op.Truncate?))
            && out.flushed == if op.Close? && !g.closed && g.dirty then g.content else None
  {
  }

  lemma AnyEditSnoc(ops: seq<Op>)
    requires ops != []
    ensures var last := ops[|ops| - 1];
            AnyEdit(ops) <==> AnyEdit(ops[..|ops| - 1]) || last.Write? || last.Truncate?
  {
    var init := ops[..|ops| - 1];
    if AnyEdit(ops) {
      var i :| 0 <= i < |ops| && (ops[i].Write? || ops[i].Truncate?);
      if i < |init| { assert init[i] == ops[i]; }
    }
    if AnyEdit(init) {
      var i :| 0 <= i < |init| && (init[i].Write? || init[i].Truncate?);
      assert ops[i] == init[i];
    }
  }

  lemma {:induction false} BeforeClose(e: File, ops: seq<Op>)
    requires e.content.Some? && !e.closed && FirstClose(ops) == |ops|
    ensures !EagerRun(e, ops).0.closed && Flushes(EagerRun(e, ops).1) == []
    ensures EagerRun(e, ops).0.dirty <==> e.dirty || AnyEdit(ops)
  {
    if ops != [] {
      var init := ops[..|ops| - 1];
      BeforeClose(e, init);
      StepFacts(EagerRun(e, init).0, ops[|ops| - 1]);
      AnyEditSnoc(ops);
      assert EagerRun(e, ops).1[..|ops| - 1] == EagerRun(e, init).1;
    }
  }

  lemma FlushesSnoc(e: File, ops: seq<Op>)
    requires e.content.Some? && ops != []
    ensures var init := ops[..|ops| - 1];
            var g := EagerRun(e, init).0;
            Flushes(EagerRun(e, ops).1) == Flushes(EagerRun(e, init).1) +
              (if ops[|ops| - 1].Close? && !g.closed && g.dirty then [g.content.value] else [])
    ensures EagerRun(e, ops).0.closed == (EagerRun(e, ops[..|ops| - 1]).0.closed || ops[|ops| - 1].Close?)
  {
    var init, op := ops[..|ops| - 1], ops[|ops| - 1];
    StepFacts(EagerRun(e, init).0, op);
    assert EagerRun(e, ops).1[..|ops| - 1] == EagerRun(e, init).1;
  }

  /** What the remote sees of a run whose first Close is operation n. */
  function FlushedAt(e: File, ops: seq<Op>, n: nat): seq<seq<byte>>
    requires e.content.Some? && n <= |ops|
  {
    if n < |ops| && (e.dirty || AnyEdit(ops[..n])) then [EagerRun(e, ops[..n]).0.content.value] else []
  }

  lemma FlushedAtFirst(e: File, ops: seq<Op>)
    requires e.content.Some? && !e.closed && ops != [] && FirstClose(ops) == |ops| - 1
    ensures Flushes(EagerRun(e, ops).1) == FlushedAt(e, ops, |ops| - 1) && EagerRun(e, ops).0.closed
  {
    FlushesSnoc(e, ops);
    BeforeClose(e, ops[..|ops| - 1]);
  }

  lemma {:induction false} FlushedAtEarlier(e: File, ops: seq<Op>, n: nat)
    requires e.content.Some? && n + 1 < |ops|
    requires EagerRun(e, ops[..|ops| - 1]).0.closed
    ensures Flushes(EagerRun(e, ops).1) == Flushes(EagerRun(e, ops[..|ops| - 1]).1) && EagerRun(e, ops).0.closed
    ensures FlushedAt(e, ops, n) == FlushedAt(e, ops[..|ops| - 1], n)
  {
    FlushesSnoc(e, ops);
    assert ops[..|ops| - 1][..n] == ops[..n];
  }

  /**
   The remote sees at most one write of the file, at the first Close and of the content at that moment,
   and it sees one exactly if the file was opened dirty or edited before.
   */
  lemma {:induction false} OneFlush(e: File, ops: seq<Op>)
    requires e.content.Some? && !e.closed
    ensures Flushes(EagerRun(e, ops).1) == FlushedAt(e, ops, FirstClose(ops))
    ensures EagerRun(e, ops).0.closed <==> FirstClose(ops) < |ops|
  {
    var n := FirstClose(ops);
    if n == |ops| {
      BeforeClose(e, ops);
    } else if n == |ops| - 1 {
      FlushedAtFirst(e, ops);
    } else {
      OneFlush(e, ops[..|ops| - 1]);
      FlushedAtEarlier(e, ops, n);
    }
  }

  // ---------- Last writer wins ----------

  datatype Edit = Put(at: nat, bytes: seq<byte>) | Cut(size: nat)

  function Length(orig: seq<byte>, edits: seq<Edit>): nat {
    if edits == [] then |orig| else
    match edits[|edits| - 1]
    case Put(at, bytes) => Max(Length(orig, edits[..|edits| - 1]), at + |bytes|)
    case Cut(size) => size
  }

  /** The latest write that covers byte i since i was last cut off; else the original byte if never cut off; else 0. */
  function ByteAt(orig: seq<byte>, edits: seq<Edit>, i: nat): byte {
    if edits == [] then if i < |orig| then orig[i] else 0 else
    var init := edits[..|edits| - 1];
    match edits[|edits| - 1]
    case Put(at, bytes) => if at <= i < at + |bytes| then bytes[i - at] else ByteAt(orig, init, i)
    case Cut(size) => if i >= size then 0 else ByteAt(orig, init, i)
  }

  predicate HasClose(ops: seq<Op>) {
    exists i | 0 <= i < |ops| :: ops[i].Close?
  }

  /** After a Close the NFS file takes no reads and writes. */
  predicate Barred(e: File, ops: seq<Op>, op: Op) {
    e.backend.Nfs? && (e.closed || HasClose(ops)) && (op.Read? || op.ReadAt? || op.Write?)
  }

  /**
   The position after the operations, from them alone: the last accepted seek target, plus the bytes
   written and read since.
   */
  function Place(e: File, ops: seq<Op>): nat
    requires e.content.Some?
    decreases |ops|
  {
    if ops == [] then e.pos else
    var init, op := ops[..|ops| - 1], ops[|ops| - 1];
    var at, length := Place(e, init), Length(e.content.value, History(e, init));
    if Barred(e, init, op) then at else
    match op
    case Write(bytes) => at + |bytes|
    case Read(n) => if at >= length then at else Min(at + n, length)
    case Seek(offset, whence) =>
      var unknown := !(0 <= whence <= 2);
      var target := if unknown then 0 else offset + [0, at, length][whence];
      if target < 0 || (unknown && e.backend.Webdav?) then at else target
    case _ => at
  }

  /** The edits of the operations, each write at the position it has. */
  function History(e: File, ops: seq<Op>): seq<Edit>
    requires e.content.Some?
    decreases |ops|
  {
    if ops == [] then [] else
    var init, op := ops[..|ops| - 1], ops[|ops| - 1];
    History(e, init) +
      (if Barred(e, init, op) then []
       else if op.Write? then [Put(Place(e, init), op.bytes)]
       else if op.Truncate? then [Cut(op.size)]
       else [])
  }

  lemma {:induction false} BeyondIsZero(orig: seq<byte>, edits: seq<Edit>, i: nat)
    requires i >= Length(orig, edits)
    ensures ByteAt(orig, edits, i) == 0
  {
    if edits != [] && edits[|edits| - 1].Put? {
      BeyondIsZero(orig, edits[..|edits| - 1], i);
    }
  }

  predicate Holds(c: seq<byte>, orig: seq<byte>, edits: seq<Edit>) {
    |c| == Length(orig, edits) && forall i | 0 <= i < |c| :: c[i] == ByteAt(orig, edits, i)
  }

  lemma HoldsPut(c: seq<byte>, orig: seq<byte>, edits: seq<Edit>, at: nat, bytes: seq<byte>)
    requires Holds(c, orig, edits)
    ensures Holds(Overlay(c, at, bytes), orig, edits + [Put(at, bytes)])
  {
    var c', edits' := Overlay(c, at, bytes), edits + [Put(at, bytes)];
    assert edits'[..|edits|] == edits;
    forall i | 0 <= i < |c'| ensures c'[i] == ByteAt(orig, edits', i) {
      if i >= |c| { BeyondIsZero(orig, edits, i); }
    }
  }

  lemma HoldsCut(c: seq<byte>, orig: seq<byte>, edits: seq<Edit>, size: nat)
    requires Holds(c, orig, edits)
    ensures Holds(Resize(c, size), orig, edits + [Cut(size)])
  {
    var c', edits' := Resize(c, size), edits + [Cut(size)];
    assert edits'[..|edits|] == edits;
    forall i | 0 <= i < |c'| ensures c'[i] == ByteAt(orig, edits', i) {
      if i >= |c| { BeyondIsZero(orig, edits, i); }
    }
  }

  lemma HasCloseSnoc(ops: seq<Op>)
    requires ops != []
    ensures HasClose(ops) <==> HasClose(ops[..|ops| - 1]) || ops[|ops| - 1].Close?
  {
    var init := ops[..|ops| - 1];
    if HasClose(ops) {
      var i :| 0 <= i < |ops| && ops[i].Close?;
      if i < |init| { assert init[i] == ops[i]; }
    }
    if HasClose(init) {
      var i :| 0 <= i < |init| && init[i].Close?;
      assert ops[i] == init[i];
    }
  }

  /** The file is what the operations alone say: closed or not, where it stands, and what it holds. */
  predicate Tracked(g: File, e: File, ops: seq<Op>)
    requires e.content.Some?
  {
    && g.content.Some? && g.backend == e.backend
    && g.closed == (e.closed || HasClose(ops))
    && g.pos == Place(e, ops)
    && Holds(g.content.value, e.content.value, History(e, ops))
  }

  lemma {:induction false} PlaceStep(g: File, e: File, ops: seq<Op>)
    requires e.content.Some? && ops != [] && Tracked(g, e, ops[..|ops| - 1])
    ensures EagerStep(g, ops[|ops| - 1]).0.pos == Place(e, ops)
  {
    assert Refused(g, ops[|ops| - 1]) <==> Barred(e, ops[..|ops| - 1], ops[|ops| - 1]);
  }

  lemma {:induction false} HoldsStep(g: File, e: File, ops: seq<Op>)
    requires e.content.Some? && ops != [] && Tracked(g, e, ops[..|ops| - 1])
    ensures Holds(EagerStep(g, ops[|ops| - 1]).0.content.value, e.content.value, History(e, ops))
  {
    var init, op := ops[..|ops| - 1], ops[|ops| - 1];
    assert Refused(g, op) <==> Barred(e, init, op);
    if !Refused(g, op) && op.Write? {
      HoldsPut(g.content.value, e.content.value, History(e, init), g.pos, op.bytes);
    } else if !Refused(g, op) && op.Truncate? {
      HoldsCut(g.content.value, e.content.value, History(e, init), op.size);
    } else {
      assert History(e, ops) == History(e, init);
    }
  }

  lemma {:induction false} TrackedStep(g: File, e: File, ops: seq<Op>)
    requires e.content.Some? && ops != [] && Tracked(g, e, ops[..|ops| - 1])
    ensures Tracked(EagerStep(g, ops[|ops| - 1]).0, e, ops)
  {
    HasCloseSnoc(ops);
    PlaceStep(g, e, ops);
    HoldsStep(g, e, ops);
    StepFacts(g, ops[|ops| - 1]);
    assert EagerStep(g, ops[|ops| - 1]).0.backend == g.backend;
  }

  lemma {:induction false} RunTracked(e: File, ops: seq<Op>)
    requires e.content.Some?
    ensures Tracked(EagerRun(e, ops).0, e, ops)
  {
    if ops != [] {
      RunTracked(e, ops[..|ops| - 1]);
      TrackedStep(EagerRun(e, ops[..|ops| - 1]).0, e, ops);
    }
  }

  /** After any run the position is the one that the operations alone give. */
  lemma PositionIs(e: File, ops: seq<Op>)
    requires e.content.Some?
    ensures EagerRun(e, ops).0.pos == Place(e, ops)
  {
    RunTracked(e, ops);
  }

  /** After any run of operations, the content is what the history of edits alone says, byte by byte. */
  lemma LastWriterWins(e: File, ops: seq<Op>)
    requires e.content.Some?
    ensures Holds(EagerRun(e, ops).0.content.value, e.content.value, History(e, ops))
  {
    RunTracked(e, ops);
  }

  /** Reads and writes are refused exactly after a Close of the NFS file, and then change nothing. */
  lemma RefusedExactly(e: File, ops: seq<Op>, op: Op)
    requires e.content.Some?
    ensures var g := EagerRun(e, ops).0;
            && (EagerStep(g, op).1.error == AlreadyClosed <==> Barred(e, ops, op))
            && (Barred(e, ops, op) ==> EagerStep(g, op) == (g, Out([], 0, AlreadyClosed, None)))
  {
    RunTracked(e, ops);
  }

  /** Writes and truncations that are not refused succeed, and a write takes all its bytes. */
  lemma EditsSucceed(e: File, ops: seq<Op>, op: Op)
    requires e.content.Some? && (op.Write? || op.Truncate?) && !Barred(e, ops, op)
    ensures EagerStep(EagerRun(e, ops).0, op).1 == Out([], if op.Write? then |op.bytes| else 0, NoError, None)
  {
    RunTracked(e, ops);
  }

  /** A Close fails exactly if it wrote back and the remote did not accept; it writes back only the first time. */
  lemma CloseReports(e: File, ops: seq<Op>, accepted: bool)
    requires e.content.Some? && !e.closed
    ensures var out := EagerStep(EagerRun(e, ops).0, Close(accepted)).1;
            && (out.flushed.Some? <==> !HasClose(ops) && (e.dirty || AnyEdit(ops)))
            && out.error == (if out.flushed.Some? && !accepted then WriteFailed else NoError)
  {
    RunTracked(e, ops);
    if !HasClose(ops) {
      assert FirstClose(ops) == |ops|;
      BeforeClose(e, ops);
    }
  }

  function Joined(chunks: seq<seq<byte>>): seq<byte> {
    if chunks == [] then [] else Joined(chunks[..|chunks| - 1]) + chunks[|chunks| - 1]
  }

  function Writes(chunks: seq<seq<byte>>): seq<Op> {
    seq(|chunks|, i requires 0 <= i < |chunks| => Write(chunks[i]))
  }

  /** Blocks written one after another into an empty file are its content one after another, as an upload needs. */
  lemma {:induction false} UploadIsJoined(e: File, chunks: seq<seq<byte>>)
    requires e.content == Some([]) && e.pos == 0 && !e.closed
    ensures var g := EagerRun(e, Writes(chunks)).0;
            g.content == Some(Joined(chunks)) && g.pos == |Joined(chunks)| && !g.closed
  {
    if chunks != [] {
      var init := chunks[..|chunks| - 1];
      UploadIsJoined(e, init);
      assert Writes(chunks)[..|chunks| - 1] == Writes(init);
      var g := EagerRun(e, Writes(init)).0;
      AppendOverlay(g.content.value, chunks[|chunks| - 1]);
    }
  }

  lemma AppendOverlay(c: seq<byte>, p: seq<byte>)
    ensures Overlay(c, |c|, p) == c + p
  {
  }

  /** `out` is n bytes from position `at` of what the history says, fewer only at the end, and then with EOF. */
  predicate Sees(out: Out, orig: seq<byte>, edits: seq<Edit>, at: nat, n: nat) {
    var length := Length(orig, edits);
    && |out.data| == out.number == (if at >= length then 0 else Min(n, length - at))
    && (forall i | 0 <= i < |out.data| :: out.data[i] == ByteAt(orig, edits, at + i))
    && out.error == (if at >= length || at + n > length then Eof else NoError)
  }

  lemma SliceSees(c: seq<byte>, orig: seq<byte>, edits: seq<Edit>, at: nat, n: nat)
    requires Holds(c, orig, edits)
    ensures Sees(SliceOut(c, at, n), orig, edits, at, n)
  {
  }

  /** What reads return after any run, in terms of the history alone. */
  lemma ReadSeesHistory(e: File, ops: seq<Op>, n: nat, off: nat)
    requires e.content.Some? && !Refused(EagerRun(e, ops).0, Read(n))
    ensures var g := EagerRun(e, ops).0;
            var (after, out) := EagerStep(g, Read(n));
            Sees(out, e.content.value, History(e, ops), g.pos, n) && after == g.(pos := g.pos + |out.data|)
    ensures var g := EagerRun(e, ops).0;
            var (after, out) := EagerStep(g, ReadAt(n, off));
            Sees(out, e.content.value, History(e, ops), off, n) && after == g
  {
    LastWriterWins(e, ops);
    var g := EagerRun(e, ops).0;
    SliceSees(g.content.value, e.content.value, History(e, ops), g.pos, n);
    SliceSees(g.content.value, e.content.value, History(e, ops), off, n);
  }

  lemma SeekOn(g: File, length: nat, offset: int, whence: int)
    requires g.content.Some? && |g.content.value| == length && 0 <= whence <= 2
    ensures var (after, out) := EagerStep(g, Seek(offset, whence));
            var target := offset + [0, g.pos, length][whence];
            if target >= 0 then after == g.(pos := target) && out == Plain([], target, NoError)
            else after == g && out.error == NegativeSeek && out.flushed.None?
  {
  }

  /** Where a seek after any run lands, counted from the start, the position or the length the history gives. */
  lemma SeekLands(e: File, ops: seq<Op>, offset: int, whence: int)
    requires e.content.Some? && 0 <= whence <= 2
    ensures var g := EagerRun(e, ops).0;
            var (after, out) := EagerStep(g, Seek(offset, whence));
            var target := offset + [0, g.pos, Length(e.content.value, History(e, ops))][whence];
            if target >= 0 then after == g.(pos := target) && out == Plain([], target, NoError)
            else after == g && out.error == NegativeSeek && out.flushed.None?
  {
    LastWriterWins(e, ops);
    SeekOn(EagerRun(e, ops).0, Length(e.content.value, History(e, ops)), offset, whence);
  }

  /** An unknown whence: the NFS file goes to the start, the WebDAV file reports it and stays. */
  lemma UnknownWhence(e: File, ops: seq<Op>, offset: int, whence: int)
    requires e.content.Some? && !(0 <= whence <= 2)
    ensures var g := EagerRun(e, ops).0;
            EagerStep(g, Seek(offset, whence)) ==
              if e.backend.Nfs? then (g.(pos := 0), Out([], 0, NoError, None)) else (g, Out([], 0, BadWhence, None))
  {
    RunTracked(e, ops);
  }
}
