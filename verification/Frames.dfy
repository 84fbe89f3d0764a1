/** The 13-byte frame header, its codec, and messages that carry several frames. */
module Frames {
  import opened Words

  const HEADER_SIZE := 13
  /** The largest payload whose frame length still fits 32 bits. */
  const MAX_PAYLOAD := U32 - 14

  const REGULAR: byte := 1
  const CONTROL: byte := 2
  const KEEP_ALIVE: byte := 9

  datatype Frame = Frame(kind: byte, id: uint32, ack: uint32, payload: seq<byte>)

  function Be32(n: uint32): (s: seq<byte>)
    ensures |s| == 4
  {
    [n / 0x100_0000, n / 0x1_0000 % 256, n / 0x100 % 256, n % 256]
  }

  function FromBe32(s: seq<byte>): uint32
    requires |s| == 4
  {
    var a: int, b: int, c: int, d: int := s[0], s[1], s[2], s[3];
    0x100_0000 * a + 0x1_0000 * b + 0x100 * c + d
  }

  lemma Be32Inverse(n: uint32)
    ensures FromBe32(Be32(n)) == n
  {
    var a, b, c := n / 0x100, n / 0x1_0000, n / 0x100_0000;
    assert n == a * 0x100 + n % 256;
    assert a == b * 0x100 + a % 256 && b == c * 0x100 + b % 256;
  }

  lemma FromBe32Inverse(s: seq<byte>)
    requires |s| == 4
    ensures Be32(FromBe32(s)) == s
  {
    var n := FromBe32(s);
    var a: int, b: int, c: int := s[0], s[1], s[2];
    assert n / 0x100 == 0x1_0000 * a + 0x100 * b + c;
    assert n / 0x1_0000 == 0x100 * a + b;
    assert n / 0x100_0000 == a;
  }

  function Header(f: Frame): (s: seq<byte>)
    ensures |s| == HEADER_SIZE
  {
    [f.kind] + Be32(f.id) + Be32(f.ack) + Be32(ToU32(|f.payload|))
  }

  function Bytes(f: Frame): (s: seq<byte>)
    ensures |s| == HEADER_SIZE + |f.payload|
  {
    Header(f) + f.payload
  }

  /** `Fault` is the slice expression of the source with bounds in the wrong order. */
  datatype Decoded = Whole(frame: Frame) | TooShort | Truncated | Fault

  function DeclaredLength(data: seq<byte>): uint32
    requires |data| >= HEADER_SIZE
  {
    FromBe32(data[9..13])
  }

  function Decode(data: seq<byte>): Decoded {
    if |data| < HEADER_SIZE then TooShort else
    var end := ToU32(HEADER_SIZE + DeclaredLength(data));
    if |data| < end then Truncated
    else if end < HEADER_SIZE then Fault
    else Whole(Frame(data[0], FromBe32(data[1..5]), FromBe32(data[5..9]), data[HEADER_SIZE..end]))
  }

  predicate Sized(f: Frame) {
    |f.payload| <= MAX_PAYLOAD
  }

  predicate AllSized(fs: seq<Frame>) {
    forall i | 0 <= i < |fs| :: Sized(fs[i])
  }

  lemma HeaderFields(f: Frame, rest: seq<byte>)
    ensures var data := Header(f) + rest;
            && data[0] == f.kind && FromBe32(data[1..5]) == f.id && FromBe32(data[5..9]) == f.ack
            && DeclaredLength(data) == ToU32(|f.payload|)
  {
    var data := Header(f) + rest;
    assert data[1..5] == Be32(f.id) && data[5..9] == Be32(f.ack) && data[9..13] == Be32(ToU32(|f.payload|));
    Be32Inverse(f.id);
    Be32Inverse(f.ack);
    Be32Inverse(ToU32(|f.payload|));
  }

  lemma LengthFits(n: uint32)
    ensures ToU32(HEADER_SIZE + n) == if n <= MAX_PAYLOAD then HEADER_SIZE + n else HEADER_SIZE + n - U32
  {
  }

  lemma {:induction false} DecodeHeader(f: Frame, tail: seq<byte>)
    requires Sized(f) && f.payload <= tail
    ensures Decode(Header(f) + tail) == Whole(f)
  {
    HeaderFields(f, tail);
    LengthFits(|f.payload|);
    assert (Header(f) + tail)[HEADER_SIZE..HEADER_SIZE + |f.payload|] == f.payload;
  }

  lemma DecodeOwn(f: Frame, rest: seq<byte>)
    requires Sized(f)
    ensures Decode(Bytes(f) + rest) == Whole(f)
  {
    DecodeHeader(f, f.payload + rest);
    assert Bytes(f) + rest == Header(f) + (f.payload + rest);
  }

  /** A frame survives encoding and decoding exactly when its payload is at most 2^32 - 14 bytes long. */
  lemma RoundTripExactly(f: Frame, rest: seq<byte>)
    ensures Decode(Bytes(f) + rest) == Whole(f) <==> Sized(f)
  {
    if Sized(f) {
      DecodeOwn(f, rest);
    } else if Decode(Bytes(f) + rest).Whole? {
      assert |Decode(Bytes(f) + rest).frame.payload| < U32 - HEADER_SIZE;
    }
  }

  /** The decoder faults exactly on a full header that declares a length above the limit. */
  lemma FaultsExactly(data: seq<byte>)
    ensures Decode(data).Fault? <==> |data| >= HEADER_SIZE && DeclaredLength(data) > MAX_PAYLOAD
  {
  }

  lemma HeaderSlices(data: seq<byte>)
    requires |data| >= HEADER_SIZE
    ensures data[..HEADER_SIZE] == [data[0]] + data[1..5] + data[5..9] + data[9..13]
  {
  }

  lemma HeaderOf(data: seq<byte>, f: Frame)
    requires |data| >= HEADER_SIZE && f.kind == data[0]
    requires f.id == FromBe32(data[1..5]) && f.ack == FromBe32(data[5..9]) && ToU32(|f.payload|) == DeclaredLength(data)
    ensures Header(f) == data[..HEADER_SIZE]
  {
    FromBe32Inverse(data[1..5]);
    FromBe32Inverse(data[5..9]);
    FromBe32Inverse(data[9..13]);
    HeaderSlices(data);
  }

  /** What decodes is the encoding of the frame it decodes to, followed by the rest. */
  lemma DecodeSplits(data: seq<byte>)
    requires Decode(data).Whole?
    ensures var f := Decode(data).frame;
            Sized(f) && |Bytes(f)| <= |data| && data == Bytes(f) + data[|Bytes(f)|..]
  {
    var f := Decode(data).frame;
    LengthFits(DeclaredLength(data));
    HeaderOf(data, f);
    assert data == data[..HEADER_SIZE] + data[HEADER_SIZE..|Bytes(f)|] + data[|Bytes(f)|..];
  }

  /** Which data carry a frame: a full header with a length within the limit, and that many bytes behind it. */
  lemma WholeExactly(data: seq<byte>)
    ensures Decode(data).Whole? <==>
            && |data| >= HEADER_SIZE && DeclaredLength(data) <= MAX_PAYLOAD
            && |data| - HEADER_SIZE >= DeclaredLength(data)
  {
    if |data| >= HEADER_SIZE {
      LengthFits(DeclaredLength(data));
    }
  }

  /** The big-endian number in the four bytes at `at`. */
  predicate BigEndianAt(s: seq<byte>, at: nat, n: int) {
    && at + 4 <= |s|
    && n == ((s[at] as int * 0x100 + s[at + 1]) * 0x100 + s[at + 2]) * 0x100 + s[at + 3]
  }

  /** Where each field stands, as the frame format lays it out. */
  lemma {:induction false} Layout(f: Frame)
    ensures var s := Bytes(f);
            && s[0] == f.kind && BigEndianAt(s, 1, f.id) && BigEndianAt(s, 5, f.ack)
            && BigEndianAt(s, 9, |f.payload| % 0x1_0000_0000) && s[13..] == f.payload
  {
    HeaderFields(f, f.payload);
  }

  // ---------- Several frames in one message ----------

  function Concat(fs: seq<Frame>): seq<byte> {
    if fs == [] then [] else Bytes(fs[0]) + Concat(fs[1..])
  }

  /** The frames that the read loop decodes from one message. */
  function FramesOf(data: seq<byte>): seq<Frame>
    decreases |data|
  {
    if Decode(data).Whole? then
      var f := Decode(data).frame;
      DecodeSplits(data);
      [f] + FramesOf(data[|Bytes(f)|..])
    else []
  }

  /** The bytes that the read loop gives up on. */
  function Leftover(data: seq<byte>): seq<byte>
    decreases |data|
  {
    if Decode(data).Whole? then
      DecodeSplits(data);
      Leftover(data[|Bytes(Decode(data).frame)|..])
    else data
  }

  /** After the frames of the message, the decoder fails at run time. */
  predicate Faulty(data: seq<byte>) {
    Decode(Leftover(data)).Fault?
  }

  /** A message is its decoded frames followed by a tail that starts with no frame. */
  lemma {:induction false} MessageSplits(data: seq<byte>)
    ensures data == Concat(FramesOf(data)) + Leftover(data)
    ensures !Decode(Leftover(data)).Whole?
    ensures AllSized(FramesOf(data))
    decreases |data|
  {
    if Decode(data).Whole? {
      var f := Decode(data).frame;
      DecodeSplits(data);
      var tail := data[|Bytes(f)|..];
      MessageSplits(tail);
      assert FramesOf(data)[1..] == FramesOf(tail);
      assert data == Bytes(f) + (Concat(FramesOf(tail)) + Leftover(tail));
      assert data == Concat(FramesOf(data)) + Leftover(data);
    }
  }

  /** Frames batched into one message come out as they went in, before whatever the tail holds. */
  lemma {:induction false} BatchDecodes(fs: seq<Frame>, tail: seq<byte>)
    requires AllSized(fs)
    ensures FramesOf(Concat(fs) + tail) == fs + FramesOf(tail)
    ensures Leftover(Concat(fs) + tail) == Leftover(tail)
  {
    if fs == [] {
      assert Concat(fs) + tail == tail;
    } else {
      BatchDecodes(fs[1..], tail);
      FirstFrame(fs[0], Concat(fs[1..]) + tail);
      ConcatCons(fs, tail);
      ConsAppend(fs, FramesOf(tail));
    }
  }

  lemma ConcatCons(fs: seq<Frame>, tail: seq<byte>)
    requires fs != []
    ensures Concat(fs) + tail == Bytes(fs[0]) + (Concat(fs[1..]) + tail)
  {
  }

  lemma FirstFrame(f: Frame, rest: seq<byte>)
    requires Sized(f)
    ensures FramesOf(Bytes(f) + rest) == [f] + FramesOf(rest)
    ensures Leftover(Bytes(f) + rest) == Leftover(rest)
  {
    DecodeOwn(f, rest);
    assert (Bytes(f) + rest)[|Bytes(f)|..] == rest;
  }

  /** Of all sequences of well-formed frames that a message starts with, the loop decodes the longest. */
  lemma LongestPrefix(data: seq<byte>, fs: seq<Frame>)
    requires AllSized(fs) && Concat(fs) <= data
    ensures fs <= FramesOf(data)
  {
    var tail := data[|Concat(fs)|..];
    assert data == Concat(fs) + tail;
    BatchDecodes(fs, tail);
  }

  // ---------- The methods of the source ----------

  method PutUint32(buf: array<byte>, at: nat, n: uint32)
    requires at + 4 <= buf.Length
    modifies buf
    ensures buf[..] == old(buf[..at]) + Be32(n) + old(buf[at + 4..])
  {
    buf[at] := n / 0x100_0000;
    buf[at + 1] := n / 0x1_0000 % 256;
    buf[at + 2] := n / 0x100 % 256;
    buf[at + 3] := n % 256;
  }

  method PutHeader(buf: array<byte>, f: Frame)
    requires buf.Length >= HEADER_SIZE
    modifies buf
    ensures buf[..HEADER_SIZE] == Header(f)
  {
    buf[0] := f.kind;
    PutUint32(buf, 1, f.id);
    PutUint32(buf, 5, f.ack);
    PutUint32(buf, 9, ToU32(|f.payload|));
  }

  method EncodeFrame(f: Frame) returns (buf: array<byte>)
    ensures fresh(buf) && buf[..] == Bytes(f)
  {
    buf := new byte[HEADER_SIZE + |f.payload|](i => 0);
    PutHeader(buf, f);
    ghost var header := buf[..HEADER_SIZE];
    forall i | 0 <= i < |f.payload| {
      buf[HEADER_SIZE + i] := f.payload[i];
    }
    assert buf[..HEADER_SIZE] == header && buf[HEADER_SIZE..] == f.payload;
  }

  /** The offset loop over one message; each turn hands one frame to delivery, and a fault ends the program. */
  method DecodeMessage(data: seq<byte>) returns (frames: seq<Frame>, faulted: bool)
    ensures frames == FramesOf(data) && faulted == Faulty(data)
  {
    frames := [];
    var offset := 0;
    while offset < |data|
      invariant 0 <= offset <= |data|
      invariant frames + FramesOf(data[offset..]) == FramesOf(data)
      invariant Leftover(data[offset..]) == Leftover(data)
      decreases |data| - offset
    {
      var decoded := Decode(data[offset..]);
      if !decoded.Whole? {
        return frames, decoded.Fault?;
      }
      ghost var rest := data[offset..];
      DecodeSplits(rest);
      offset := offset + HEADER_SIZE + |decoded.frame.payload|;
      assert data[offset..] == rest[|Bytes(decoded.frame)|..];
      AppendAssoc(frames, [decoded.frame], FramesOf(data[offset..]));
      frames := frames + [decoded.frame];
    }
    faulted := false;
  }
}
