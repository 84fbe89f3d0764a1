/**
 The tagged value format. `Ser` and `Parse` specify it on byte sequences; the methods at the end
 are the recursive writer and reader of the source, proved to produce exactly these.
 */
module Serialize {
  import opened Wrappers
  import opened Words
  import opened Vql

  /** The dynamically typed values of the source. Floats are reals: NaN and the infinities are left out. */
  datatype Value =
    | Nil
    | Str(text: seq<byte>)
    | Buf(data: seq<byte>)
    | Int(n: int)
    | Float(x: real)
    | Arr(elems: seq<Value>)
    | Obj(fields: map<seq<byte>, Value>)

  /** The JSON library, about which nothing is assumed here; a failed Marshal yields no bytes. */
  datatype Json = Json(marshal: Value -> seq<byte>, unmarshal: seq<byte> -> Option<Value>)

  const TAG_UNDEFINED: byte := 0
  const TAG_STRING: byte := 1
  /** What the writer puts before bytes; the reader takes tag 2 for the same. */
  const TAG_VSBUFFER: byte := 3
  const TAG_ARRAY: byte := 4
  const TAG_OBJECT: byte := 5
  const TAG_INT: byte := 6

  predicate IsWord(x: real) {
    x == x.Floor as real && 0.0 <= x <= 4294967295.0
  }

  /** Values that travel as JSON text. */
  predicate ViaJson(v: Value) {
    v.Obj? || (v.Float? && !IsWord(v.x))
  }

  function Tagged(tag: byte, data: seq<byte>): seq<byte> {
    [tag] + Encode(ToU32(|data|)) + data
  }

  function Ser(j: Json, v: Value): seq<byte>
    decreases v, 0
  {
    match v
    case Nil => [TAG_UNDEFINED]
    case Str(text) => Tagged(TAG_STRING, text)
    case Buf(data) => Tagged(TAG_VSBUFFER, data)
    case Int(n) => [TAG_INT] + Encode(ToU32(n))
    case Float(x) => if IsWord(x) then [TAG_INT] + Encode(ToU32(x.Floor)) else Tagged(TAG_OBJECT, j.marshal(v))
    case Arr(elems) => [TAG_ARRAY] + Encode(ToU32(|elems|)) + SerAll(j, elems)
    case Obj(_) => Tagged(TAG_OBJECT, j.marshal(v))
  }

  function SerAll(j: Json, vs: seq<Value>): seq<byte>
    decreases vs
  {
    if vs == [] then [] else Ser(j, vs[0]) + SerAll(j, vs[1..])
  }

  /** What a value becomes on the far side: integers cut to 32 bits, JSON values re-read. */
  function Norm(j: Json, v: Value): Value
    decreases v, 0
  {
    match v
    case Int(n) => Int(ToU32(n))
    case Float(x) => if IsWord(x) then Int(ToU32(x.Floor)) else JsonImage(j, v)
    case Obj(_) => JsonImage(j, v)
    case Arr(elems) => Arr(NormAll(j, elems))
    case _ => v
  }

  function NormAll(j: Json, vs: seq<Value>): (r: seq<Value>)
    ensures |r| == |vs|
    decreases vs
  {
    if vs == [] then [] else [Norm(j, vs[0])] + NormAll(j, vs[1..])
  }

  function JsonImage(j: Json, v: Value): Value {
    var r := j.unmarshal(j.marshal(v));
    if r.Some? then r.value else Nil
  }

  /** Every length fits its 32-bit field, and the JSON library reads back what it wrote. */
  predicate Encodable(j: Json, v: Value)
    decreases v, 0
  {
    match v
    case Str(text) => |text| < U32
    case Buf(data) => |data| < U32
    case Arr(elems) => |elems| < U32 && AllEncodable(j, elems)
    case _ => ViaJson(v) ==> |j.marshal(v)| < U32 && j.unmarshal(j.marshal(v)).Some?
  }

  predicate AllEncodable(j: Json, vs: seq<Value>)
    decreases vs
  {
    vs != [] ==> Encodable(j, vs[0]) && AllEncodable(j, vs[1..])
  }

  // ---------- The reader ----------

  type Parsed = Result<(Value, nat), WireError>
  type ParsedArray = Result<(seq<Value>, nat), WireError>

  function Parse(j: Json, buf: seq<byte>, pos: nat): (r: Parsed)
    ensures r.Ok? ==> pos < r.value.1 <= |buf|
    decreases |buf| - pos, 0, 0
  {
    if pos >= |buf| then Err(PastEnd) else
    var tag := buf[pos];
    if tag == TAG_UNDEFINED then Ok((Nil, pos + 1))
    else if tag > TAG_INT then Err(BadTag)
    else match Vql.Parse(buf, pos + 1)
      case Err(e) => Err(e)
      case Ok((n, q)) => ParseBody(j, buf, tag, n, q)
  }

  /** What follows a tag and its number `n`. */
  function ParseBody(j: Json, buf: seq<byte>, tag: byte, n: nat, q: nat): (r: Parsed)
    requires q <= |buf|
    ensures r.Ok? ==> q <= r.value.1 <= |buf|
    decreases |buf| - q, 2, 0
  {
    if tag == TAG_INT then Ok((Int(n), q))
    else if tag == TAG_ARRAY then WrapArray(ParseAll(j, buf, q, n))
    else if q + n > |buf| then Err(PastEnd)
    else ParseBlock(j, tag, buf[q..q + n], q + n)
  }

  function WrapArray(r: ParsedArray): Parsed {
    match r
    case Err(e) => Err(e)
    case Ok((vs, end)) => Ok((Arr(vs), end))
  }

  /** A length-prefixed payload, by tag. */
  function ParseBlock(j: Json, tag: byte, data: seq<byte>, end: nat): Parsed {
    if tag == TAG_STRING then Ok((Str(data), end))
    else if tag == TAG_OBJECT then
      match j.unmarshal(data)
      case None => Err(BadJson)
      case Some(v) => Ok((v, end))
    else Ok((Buf(data), end))
  }

  function ParseAll(j: Json, buf: seq<byte>, pos: nat, n: nat): (r: ParsedArray)
    requires pos <= |buf|
    ensures r.Ok? ==> pos <= r.value.1 <= |buf| && |r.value.0| == n
    decreases |buf| - pos, 1, n
  {
    if n == 0 then Ok(([], pos)) else
    match Parse(j, buf, pos)
    case Err(e) => Err(e)
    case Ok((v, q)) =>
      match ParseAll(j, buf, q, n - 1)
      case Err(e) => Err(e)
      case Ok((vs, end)) => Ok(([v] + vs, end))
  }

  /** Where the reader stands after Deserialize, also when that fails. */
  function Stop(j: Json, buf: seq<byte>, pos: nat): nat
    decreases |buf| - pos, 0, 0
  {
    if pos >= |buf| then pos
    else if buf[pos] == TAG_UNDEFINED || buf[pos] > TAG_INT then pos + 1
    else match Vql.Parse(buf, pos + 1)
      case Err(_) => Vql.Stop(buf, pos + 1)
      case Ok((n, q)) =>
        if buf[pos] == TAG_INT then q
        else if buf[pos] == TAG_ARRAY then StopAll(j, buf, q, n)
        else if q + n > |buf| then q
        else q + n
  }

  function StopAll(j: Json, buf: seq<byte>, pos: nat, n: nat): nat
    decreases |buf| - pos, 1, n
  {
    if n == 0 then pos else
    match Parse(j, buf, pos)
    case Err(_) => Stop(j, buf, pos)
    case Ok((_, q)) => StopAll(j, buf, q, n - 1)
  }

  /** After a success that is where the value ends. */
  lemma {:induction false} StopsAfterValue(j: Json, buf: seq<byte>, pos: nat)
    requires Parse(j, buf, pos).Ok?
    ensures Stop(j, buf, pos) == Parse(j, buf, pos).value.1
    decreases |buf| - pos, 0, 0
  {
    if buf[pos] == TAG_ARRAY {
      var (n, q) := Vql.Parse(buf, pos + 1).value;
      StopsAfterAll(j, buf, q, n);
    }
  }

  lemma {:induction false} StopsAfterAll(j: Json, buf: seq<byte>, pos: nat, n: nat)
    requires pos <= |buf| && ParseAll(j, buf, pos, n).Ok?
    ensures StopAll(j, buf, pos, n) == ParseAll(j, buf, pos, n).value.1
    decreases |buf| - pos, 1, n
  {
    if n > 0 {
      var (_, q) := Parse(j, buf, pos).value;
      StopsAfterAll(j, buf, q, n - 1);
    }
  }

  // ---------- Round trip ----------

  lemma HeadOccurs(buf: seq<byte>, pos: nat, tag: byte, code: seq<byte>, rest: seq<byte>)
    requires Occurs(buf, pos, [tag] + code + rest)
    ensures pos < |buf| && buf[pos] == tag
    ensures Occurs(buf, pos + 1, code) && Occurs(buf, pos + 1 + |code|, rest)
  {
    OccursSplit(buf, pos, [tag] + code, rest);
    OccursSplit(buf, pos, [tag], code);
    assert buf[pos] == [tag][0];
  }

  lemma ParseFrom(j: Json, buf: seq<byte>, pos: nat, tag: byte, n: uint32, q: nat)
    requires pos < |buf| && buf[pos] == tag && TAG_UNDEFINED < tag <= TAG_INT && Vql.Parse(buf, pos + 1) == Ok((n, q))
    ensures Parse(j, buf, pos) == ParseBody(j, buf, tag, n, q)
  {
  }

  /** A tag and the coded number `n` stand at `pos`; `code` keeps the solver from looking into the number. */
  predicate HeadAt(buf: seq<byte>, pos: nat, tag: byte, n: uint32, code: seq<byte>) {
    pos < |buf| && buf[pos] == tag && TAG_UNDEFINED < tag <= TAG_INT && code == Encode(n) && Occurs(buf, pos + 1, code)
  }

  lemma ParseHead(j: Json, buf: seq<byte>, pos: nat, tag: byte, n: uint32, code: seq<byte>)
    requires HeadAt(buf, pos, tag, n, code)
    ensures pos + 1 + |code| <= |buf| && Parse(j, buf, pos) == ParseBody(j, buf, tag, n, pos + 1 + |code|)
  {
    RoundTrip(buf, pos + 1, n);
    ParseFrom(j, buf, pos, tag, n, pos + 1 + |code|);
  }

  lemma BodyOfBlock(j: Json, buf: seq<byte>, tag: byte, data: seq<byte>, q: nat)
    requires q <= |buf| && Occurs(buf, q, data) && tag != TAG_INT && tag != TAG_ARRAY
    ensures ParseBody(j, buf, tag, |data|, q) == ParseBlock(j, tag, data, q + |data|)
  {
    OccursSlice(buf, q, data);
  }

  lemma ParseTagged(j: Json, buf: seq<byte>, pos: nat, tag: byte, code: seq<byte>, data: seq<byte>)
    requires |data| < U32 && HeadAt(buf, pos, tag, |data|, code) && Occurs(buf, pos + 1 + |code|, data)
    requires tag != TAG_INT && tag != TAG_ARRAY
    ensures Parse(j, buf, pos) == ParseBlock(j, tag, data, pos + 1 + |code| + |data|)
  {
    ParseHead(j, buf, pos, tag, |data|, code);
    BodyOfBlock(j, buf, tag, data, pos + 1 + |code|);
  }

  lemma ParseWord(j: Json, buf: seq<byte>, pos: nat, n: uint32, code: seq<byte>)
    requires HeadAt(buf, pos, TAG_INT, n, code)
    ensures Parse(j, buf, pos) == Ok((Int(n), pos + 1 + |code|))
  {
    ParseHead(j, buf, pos, TAG_INT, n, code);
  }

  lemma ParseArr(j: Json, buf: seq<byte>, pos: nat, n: uint32, code: seq<byte>)
    requires HeadAt(buf, pos, TAG_ARRAY, n, code)
    ensures pos + 1 + |code| <= |buf| && Parse(j, buf, pos) == WrapArray(ParseAll(j, buf, pos + 1 + |code|, n))
  {
    ParseHead(j, buf, pos, TAG_ARRAY, n, code);
  }

  lemma ParseBlockAt(j: Json, buf: seq<byte>, pos: nat, tag: byte, data: seq<byte>)
    requires |data| < U32 && Occurs(buf, pos, Tagged(tag, data))
    requires tag == TAG_STRING || tag == TAG_VSBUFFER || tag == TAG_OBJECT
    ensures Parse(j, buf, pos) == ParseBlock(j, tag, data, pos + |Tagged(tag, data)|)
  {
    HeadOccurs(buf, pos, tag, Encode(|data|), data);
    ParseTagged(j, buf, pos, tag, Encode(|data|), data);
  }

  lemma ParseWordAt(j: Json, buf: seq<byte>, pos: nat, n: uint32)
    requires Occurs(buf, pos, [TAG_INT] + Encode(n))
    ensures Parse(j, buf, pos) == Ok((Int(n), pos + 1 + |Encode(n)|))
  {
    OccursSplit(buf, pos, [TAG_INT], Encode(n));
    assert buf[pos] == [TAG_INT][0];
    ParseWord(j, buf, pos, n, Encode(n));
  }

  lemma ParseNil(j: Json, buf: seq<byte>, pos: nat)
    requires Occurs(buf, pos, [TAG_UNDEFINED])
    ensures Parse(j, buf, pos) == Ok((Nil, pos + 1))
  {
    assert buf[pos] == [TAG_UNDEFINED][0];
  }

  lemma ParseLeaf(j: Json, buf: seq<byte>, pos: nat, v: Value)
    requires !v.Arr? && Encodable(j, v) && Occurs(buf, pos, Ser(j, v))
    ensures Parse(j, buf, pos) == Ok((Norm(j, v), pos + |Ser(j, v)|))
  {
    if ViaJson(v) {
      ParseBlockAt(j, buf, pos, TAG_OBJECT, j.marshal(v));
    } else {
      match v
      case Nil => ParseNil(j, buf, pos);
      case Str(text) => ParseBlockAt(j, buf, pos, TAG_STRING, text);
      case Buf(data) => ParseBlockAt(j, buf, pos, TAG_VSBUFFER, data);
      case Int(n) => ParseWordAt(j, buf, pos, ToU32(n));
      case Float(x) => ParseWordAt(j, buf, pos, ToU32(x.Floor));
    }
  }

  lemma {:induction false} ArrayRead(j: Json, buf: seq<byte>, pos: nat, elems: seq<Value>, n: nat, q: nat)
    requires |elems| == n < U32 && q == pos + 1 + |Encode(n)| <= |buf|
    requires Parse(j, buf, pos) == WrapArray(ParseAll(j, buf, q, n))
    requires ParseAll(j, buf, q, n) == Ok((NormAll(j, elems), q + |SerAll(j, elems)|))
    ensures Parse(j, buf, pos) == Ok((Norm(j, Arr(elems)), pos + |Ser(j, Arr(elems))|))
  {
  }

  lemma {:induction false} SplitArr(j: Json, buf: seq<byte>, pos: nat, elems: seq<Value>)
    requires Encodable(j, Arr(elems)) && Occurs(buf, pos, Ser(j, Arr(elems)))
    ensures |elems| < U32 && AllEncodable(j, elems) && HeadAt(buf, pos, TAG_ARRAY, |elems|, Encode(|elems|))
    ensures Occurs(buf, pos + 1 + |Encode(|elems|)|, SerAll(j, elems))
  {
    HeadOccurs(buf, pos, TAG_ARRAY, Encode(|elems|), SerAll(j, elems));
  }

  /** Deserialize undoes Serialize wherever it stands, and stops exactly after it. */
  lemma {:induction false} ParseSer(j: Json, buf: seq<byte>, pos: nat, v: Value)
    requires Encodable(j, v) && Occurs(buf, pos, Ser(j, v))
    ensures Parse(j, buf, pos) == Ok((Norm(j, v), pos + |Ser(j, v)|))
    decreases v, 0
  {
    if v.Arr? {
      var n := |v.elems|;
      SplitArr(j, buf, pos, v.elems);
      ParseArr(j, buf, pos, n, Encode(n));
      ParseSerAll(j, buf, pos + 1 + |Encode(n)|, v.elems);
      ArrayRead(j, buf, pos, v.elems, n, pos + 1 + |Encode(n)|);
    } else {
      ParseLeaf(j, buf, pos, v);
    }
  }

  lemma {:induction false} ParseSerAll(j: Json, buf: seq<byte>, pos: nat, vs: seq<Value>)
    requires AllEncodable(j, vs) && Occurs(buf, pos, SerAll(j, vs))
    ensures ParseAll(j, buf, pos, |vs|) == Ok((NormAll(j, vs), pos + |SerAll(j, vs)|))
    decreases vs
  {
    if vs != [] {
      var first, others := Ser(j, vs[0]), SerAll(j, vs[1..]);
      assert SerAll(j, vs) == first + others;
      OccursSplit(buf, pos, first, others);
      ParseSer(j, buf, pos, vs[0]);
      ParseSerAll(j, buf, pos + |first|, vs[1..]);
      assert ParseAll(j, buf, pos, |vs|).Ok?;
    }
  }

  /** No part of the value travels as JSON. */
  predicate JsonFree(v: Value)
    decreases v, 0
  {
    !ViaJson(v) && (v.Arr? ==> AllJsonFree(v.elems))
  }

  predicate AllJsonFree(vs: seq<Value>)
    decreases vs
  {
    vs != [] ==> JsonFree(vs[0]) && AllJsonFree(vs[1..])
  }

  /** Deserialize at `pos` yields the value `v`. */
  predicate Yields(j: Json, buf: seq<byte>, pos: nat, v: Value) {
    Parse(j, buf, pos).Ok? && Parse(j, buf, pos).value.0 == v
  }

  /** Deserialize at `pos` yields the image of `v`. */
  predicate Restores(j: Json, buf: seq<byte>, pos: nat, v: Value) {
    Yields(j, buf, pos, Norm(j, v))
  }

  lemma MisreadBlock(j: Json, buf: seq<byte>, pos: nat, tag: byte, n: uint32, code: seq<byte>, data: seq<byte>)
    requires n == ToU32(|data|) && HeadAt(buf, pos, tag, n, code) && |data| >= U32
    requires tag == TAG_STRING || tag == TAG_VSBUFFER
    ensures Parse(j, buf, pos).Ok? ==>
              Parse(j, buf, pos).value.0 != Str(data) && Parse(j, buf, pos).value.0 != Buf(data)
  {
    ParseHead(j, buf, pos, tag, n, code);
    var q := pos + 1 + |code|;
    if q + n <= |buf| {
      assert |buf[q..q + n]| < |data|;
    }
  }

  /** What reading an array means for its first element and the rest. */
  lemma ParseAllCons(j: Json, buf: seq<byte>, pos: nat, n: nat)
    requires pos <= |buf| && n > 0 && ParseAll(j, buf, pos, n).Ok?
    ensures Parse(j, buf, pos).Ok?
    ensures var (v, q) := Parse(j, buf, pos).value;
            var rest := ParseAll(j, buf, q, n - 1);
            rest.Ok? && ParseAll(j, buf, pos, n) == Ok(([v] + rest.value.0, rest.value.1))
  {
  }

  lemma ConsDiffers<T>(x: T, xs: seq<T>, y: T, ys: seq<T>)
    requires x != y || xs != ys
    ensures [x] + xs != [y] + ys
  {
    assert ([x] + xs)[0] == x && ([x] + xs)[1..] == xs && ([y] + ys)[0] == y && ([y] + ys)[1..] == ys;
  }

  lemma DiffersFrom<T>(x: T, xs: seq<T>, s: seq<T>)
    requires s != [] && (x != s[0] || xs != s[1..])
    ensures [x] + xs != s
  {
    ConsDiffers(x, xs, s[0], s[1..]);
    ConsAppend(s, []);
    assert [s[0]] + s[1..] == s;
  }

  lemma ArrayMisread(j: Json, buf: seq<byte>, pos: nat, n: nat, q: nat, elems: seq<Value>)
    requires q <= |buf| && Parse(j, buf, pos) == WrapArray(ParseAll(j, buf, q, n))
    requires ParseAll(j, buf, q, n).Ok? ==>
               ParseAll(j, buf, q, n).value.0 != NormAll(j, elems) && ParseAll(j, buf, q, n).value.0 != elems
    ensures !Restores(j, buf, pos, Arr(elems)) && !Yields(j, buf, pos, Arr(elems))
  {
  }

  /** A length that does not fit its 32-bit field is cut, and then the value is lost. */
  lemma {:induction false} Misread(j: Json, buf: seq<byte>, pos: nat, v: Value)
    requires JsonFree(v) && !Encodable(j, v) && Occurs(buf, pos, Ser(j, v))
    ensures !Restores(j, buf, pos, v) && !Yields(j, buf, pos, v)
    decreases v, 0
  {
    var n := ToU32(if v.Str? then |v.text| else if v.Buf? then |v.data| else |v.elems|);
    if v.Str? {
      HeadOccurs(buf, pos, TAG_STRING, Encode(n), v.text);
      MisreadBlock(j, buf, pos, TAG_STRING, n, Encode(n), v.text);
    } else if v.Buf? {
      HeadOccurs(buf, pos, TAG_VSBUFFER, Encode(n), v.data);
      MisreadBlock(j, buf, pos, TAG_VSBUFFER, n, Encode(n), v.data);
    } else {
      var elems, q := v.elems, pos + 1 + |Encode(n)|;
      HeadOccurs(buf, pos, TAG_ARRAY, Encode(n), SerAll(j, elems));
      ParseArr(j, buf, pos, n, Encode(n));
      if |elems| < U32 {
        MisreadAll(j, buf, q, elems);
      } else {
        assert |NormAll(j, elems)| != n;
      }
      ArrayMisread(j, buf, pos, n, q, elems);
    }
  }

  lemma {:induction false} MisreadAll(j: Json, buf: seq<byte>, pos: nat, vs: seq<Value>)
    requires AllJsonFree(vs) && !AllEncodable(j, vs) && Occurs(buf, pos, SerAll(j, vs))
    ensures ParseAll(j, buf, pos, |vs|).Ok? ==>
              ParseAll(j, buf, pos, |vs|).value.0 != NormAll(j, vs) && ParseAll(j, buf, pos, |vs|).value.0 != vs
    decreases vs
  {
    var first, others := vs[0], vs[1..];
    OccursSplit(buf, pos, Ser(j, first), SerAll(j, others));
    if ParseAll(j, buf, pos, |vs|).Ok? {
      ParseAllCons(j, buf, pos, |vs|);
      var (v, q) := Parse(j, buf, pos).value;
      var rest := ParseAll(j, buf, q, |vs| - 1).value.0;
      if Encodable(j, first) {
        ParseSer(j, buf, pos, first);
        MisreadAll(j, buf, q, others);
      } else {
        Misread(j, buf, pos, first);
      }
      ConsDiffers(v, rest, Norm(j, first), NormAll(j, others));
      DiffersFrom(v, rest, vs);
    }
  }

  /** Without JSON parts, a value survives the wire exactly when every length in it fits 32 bits. */
  lemma RoundTripExactly(j: Json, v: Value, rest: seq<byte>)
    requires JsonFree(v)
    ensures Restores(j, Ser(j, v) + rest, 0, v) <==> Encodable(j, v)
  {
    assert Occurs(Ser(j, v) + rest, 0, Ser(j, v));
    if Encodable(j, v) {
      ParseSer(j, Ser(j, v) + rest, 0, v);
    } else {
      Misread(j, Ser(j, v) + rest, 0, v);
    }
  }

  /** Texts, bytes and arrays whose lengths fit 32 bits, and integers that do: the values of the format. */
  predicate Native(v: Value)
    decreases v, 0
  {
    match v
    case Nil => true
    case Str(text) => |text| < U32
    case Buf(data) => |data| < U32
    case Int(n) => 0 <= n < U32
    case Arr(elems) => |elems| < U32 && forall i | 0 <= i < |elems| :: Native(elems[i])
    case _ => false
  }

  lemma {:induction false} NormIdentity(j: Json, v: Value)
    requires JsonFree(v) && Encodable(j, v)
    ensures Norm(j, v) == v <==> Native(v)
    decreases v, 0
  {
    if v.Arr? {
      NormAllIdentity(j, v.elems);
    }
  }

  lemma {:induction false} NormAllIdentity(j: Json, vs: seq<Value>)
    requires AllJsonFree(vs) && AllEncodable(j, vs)
    ensures NormAll(j, vs) == vs <==> forall i | 0 <= i < |vs| :: Native(vs[i])
    decreases vs
  {
    if vs != [] {
      NormIdentity(j, vs[0]);
      NormAllIdentity(j, vs[1..]);
      assert NormAll(j, vs)[0] == Norm(j, vs[0]) && NormAll(j, vs)[1..] == NormAll(j, vs[1..]);
      assert vs == [vs[0]] + vs[1..];
      assert forall i | 1 <= i < |vs| :: vs[i] == vs[1..][i - 1];
      assert (forall i | 0 <= i < |vs| :: Native(vs[i])) <==>
             Native(vs[0]) && forall i | 0 <= i < |vs[1..]| :: Native(vs[1..][i]);
    }
  }

  lemma {:induction false} NativeEncodable(j: Json, v: Value)
    requires Native(v)
    ensures Encodable(j, v)
    decreases v, 0
  {
    if v.Arr? {
      NativeAllEncodable(j, v.elems);
    }
  }

  lemma {:induction false} NativeAllEncodable(j: Json, vs: seq<Value>)
    requires forall i | 0 <= i < |vs| :: Native(vs[i])
    ensures AllEncodable(j, vs)
    decreases vs
  {
    if vs != [] {
      NativeEncodable(j, vs[0]);
      NativeAllEncodable(j, vs[1..]);
    }
  }

  /** Without JSON parts, a value comes back as the very value it was exactly when it is native to the format. */
  lemma {:induction false} IdentityExactly(j: Json, v: Value, rest: seq<byte>)
    requires JsonFree(v)
    ensures Yields(j, Ser(j, v) + rest, 0, v) <==> Native(v)
  {
    assert Occurs(Ser(j, v) + rest, 0, Ser(j, v));
    if Encodable(j, v) {
      ParseSer(j, Ser(j, v) + rest, 0, v);
      NormIdentity(j, v);
    } else {
      Misread(j, Ser(j, v) + rest, 0, v);
      if Native(v) {
        NativeEncodable(j, v);
      }
    }
  }

  /** The tags and layouts of the format description, both ways; tag 2 is read as bytes too. */
  lemma {:induction false} DocumentedFormat(j: Json, o: Value, rest: seq<byte>)
    requires o.Obj? && j.marshal(o) == [123, 125] && j.unmarshal([123, 125]) == Some(o)
    ensures Ser(j, Nil) == [0]
    ensures Ser(j, Str([104, 105])) == [1, 2, 104, 105]
    ensures Ser(j, Buf([7])) == [3, 1, 7]
    ensures Ser(j, Arr([Nil, Int(300)])) == [4, 2, 0, 6, 172, 2]
    ensures Ser(j, o) == [5, 2, 123, 125]
    ensures Parse(j, [2, 1, 7] + rest, 0) == Ok((Buf([7]), 3)) == Parse(j, [3, 1, 7] + rest, 0)
  {
    assert SerAll(j, [Nil, Int(300)]) == [0, 6, 172, 2] by {
      assert [Nil, Int(300)][1..] == [Int(300)] && [Int(300)][1..] == [];
      assert Encode(300) == [172] + Encode(2);
      assert SerAll(j, [Int(300)]) == [6, 172, 2];
    }
    assert Encode(1) == [1] && Encode(2) == [2];
    forall tag: byte | tag == 2 || tag == 3 ensures Parse(j, [tag, 1, 7] + rest, 0) == Ok((Buf([7]), 3)) {
      var buf := [tag, 1, 7] + rest;
      assert Occurs(buf, 1, Encode(1)) && Occurs(buf, 2, [7]);
      ParseTagged(j, buf, 0, tag, Encode(1), [7]);
    }
  }

  /** What a success says about the bytes: the tag is one of seven and decides what stands behind it. */
  lemma {:induction false} SuccessShape(j: Json, buf: seq<byte>, pos: nat)
    requires Parse(j, buf, pos).Ok?
    ensures var (v, end) := Parse(j, buf, pos).value;
            && (buf[pos] == 0 <==> v == Nil && end == pos + 1)
            && (buf[pos] == 1 ==>
                  v.Str? && |v.text| < U32 && pos + 1 + |v.text| < end && buf[end - |v.text|..end] == v.text)
            && (2 <= buf[pos] <= 3 ==>
                  v.Buf? && |v.data| < U32 && pos + 1 + |v.data| < end && buf[end - |v.data|..end] == v.data)
            && (buf[pos] == 4 ==> v.Arr? && |v.elems| < U32)
            && (buf[pos] == 5 ==> exists at | pos + 1 < at <= end :: j.unmarshal(buf[at..end]) == Some(v))
            && (buf[pos] == 6 ==> v.Int? && 0 <= v.n < U32)
            && buf[pos] <= 6
  {
  }

  lemma {:induction false} ParseTwo(j: Json, buf: seq<byte>, header: Value, body: Value, h: seq<byte>, b: seq<byte>)
    requires Encodable(j, header) && Encodable(j, body) && h == Ser(j, header) && b == Ser(j, body)
    requires Occurs(buf, 0, h) && Occurs(buf, |h|, b)
    ensures Parse(j, buf, 0) == Ok((Norm(j, header), |h|)) && Parse(j, buf, |h|) == Ok((Norm(j, body), |h| + |b|))
  {
    ParseSer(j, buf, 0, header);
    ParseSer(j, buf, |h|, body);
  }

  /** A message Ser(header) ++ Ser(body) splits into exactly its two halves, whatever follows. */
  lemma {:induction false} MessageSplits(j: Json, header: Value, body: Value, rest: seq<byte>)
    requires Encodable(j, header) && Encodable(j, body)
    ensures var h, b := Ser(j, header), Ser(j, body);
            && Parse(j, h + b + rest, 0) == Ok((Norm(j, header), |h|))
            && Parse(j, h + b + rest, |h|) == Ok((Norm(j, body), |h| + |b|))
  {
    var h, b := Ser(j, header), Ser(j, body);
    TwoOccur(h, b, rest);
    ParseTwo(j, h + b + rest, header, body, h, b);
  }

  lemma TwoOccur(h: seq<byte>, b: seq<byte>, rest: seq<byte>)
    ensures Occurs(h + b + rest, 0, h) && Occurs(h + b + rest, |h|, b)
  {
  }

  // ---------- Totality ----------

  /** Bytes after a value never change how it is read. */
  lemma {:induction false} ParseExtend(j: Json, buf: seq<byte>, more: seq<byte>, pos: nat)
    requires Parse(j, buf, pos).Ok?
    ensures Parse(j, buf + more, pos) == Parse(j, buf, pos)
    decreases |buf| - pos, 0, 0
  {
    var tag := buf[pos];
    assert (buf + more)[pos] == tag;
    if tag != TAG_UNDEFINED {
      GroupsExtend(buf, more, pos + 1, 0);
      var (n, q) := Vql.Parse(buf, pos + 1).value;
      if tag == TAG_ARRAY {
        ParseAllExtend(j, buf, more, q, n);
      } else if tag != TAG_INT {
        assert (buf + more)[q..q + n] == buf[q..q + n];
      }
    }
  }

  lemma {:induction false} ParseAllExtend(j: Json, buf: seq<byte>, more: seq<byte>, pos: nat, n: nat)
    requires pos <= |buf| && ParseAll(j, buf, pos, n).Ok?
    ensures ParseAll(j, buf + more, pos, n) == ParseAll(j, buf, pos, n)
    decreases |buf| - pos, 1, n
  {
    if n > 0 {
      ParseExtend(j, buf, more, pos);
      var (v, q) := Parse(j, buf, pos).value;
      ParseAllExtend(j, buf, more, q, n - 1);
    }
  }

  /** The number of values in a value, itself included, however deep in arrays and JSON objects. */
  ghost function Nodes(v: Value): nat
    decreases v, 0
  {
    match v
    case Arr(elems) => 1 + AllNodes(elems)
    case Obj(fields) => 1 + FieldNodes(v, fields.Keys)
    case _ => 1
  }

  ghost function FieldNodes(v: Value, keys: set<seq<byte>>): nat
    requires v.Obj? && keys <= v.fields.Keys
    decreases v, 0, |keys|
  {
    if keys == {} then 0 else
    var k :| k in keys;
    Nodes(v.fields[k]) + FieldNodes(v, keys - {k})
  }

  ghost function AllNodes(vs: seq<Value>): nat
    decreases vs
  {
    if vs == [] then 0 else Nodes(vs[0]) + AllNodes(vs[1..])
  }

  /** JSON text of n bytes holds at most n values. */
  ghost predicate Compact(j: Json) {
    forall data, v | j.unmarshal(data) == Some(v) :: Nodes(v) <= |data|
  }

  /** A parsed value has no more parts than the bytes it was read from. */
  lemma {:induction false} ParseSmall(j: Json, buf: seq<byte>, pos: nat)
    requires Compact(j) && Parse(j, buf, pos).Ok?
    ensures Nodes(Parse(j, buf, pos).value.0) <= Parse(j, buf, pos).value.1 - pos
    decreases |buf| - pos, 0, 0
  {
    if buf[pos] != TAG_UNDEFINED {
      var (n, q) := Vql.Parse(buf, pos + 1).value;
      if buf[pos] == TAG_ARRAY {
        ParseAllSmall(j, buf, q, n);
      }
    }
  }

  lemma {:induction false} ParseAllSmall(j: Json, buf: seq<byte>, pos: nat, n: nat)
    requires pos <= |buf| && Compact(j) && ParseAll(j, buf, pos, n).Ok?
    ensures AllNodes(ParseAll(j, buf, pos, n).value.0) <= ParseAll(j, buf, pos, n).value.1 - pos
    decreases |buf| - pos, 1, n
  {
    if n > 0 {
      ParseSmall(j, buf, pos);
      var (v, q) := Parse(j, buf, pos).value;
      ParseAllSmall(j, buf, q, n - 1);
      var vs := ParseAll(j, buf, q, n - 1).value.0;
      assert ([v] + vs)[1..] == vs;
    }
  }

  // ---------- The methods of the source ----------

  method Serialize(w: Writer, j: Json, v: Value)
    modifies w
    ensures w.buf == old(w.buf) + Ser(j, v)
    decreases v, 0
  {
    match v
    case Nil =>
      w.WriteByte(TAG_UNDEFINED);
    case Str(text) =>
      WriteBlock(w, TAG_STRING, text);
    case Buf(data) =>
      WriteBlock(w, TAG_VSBUFFER, data);
    case Int(n) =>
      WriteHead(w, TAG_INT, ToU32(n));
    case Float(x) =>
      if IsWord(x) {
        WriteHead(w, TAG_INT, ToU32(x.Floor));
      } else {
        WriteBlock(w, TAG_OBJECT, j.marshal(v));
      }
    case Arr(elems) =>
      WriteHead(w, TAG_ARRAY, ToU32(|elems|));
      SerializeAll(w, j, elems);
      assert w.buf == old(w.buf) + ([TAG_ARRAY] + Encode(ToU32(|elems|)) + SerAll(j, elems));
    case Obj(_) =>
      WriteBlock(w, TAG_OBJECT, j.marshal(v));
  }

  /** The loop over the elements of an array. */
  method SerializeAll(w: Writer, j: Json, elems: seq<Value>)
    modifies w
    ensures w.buf == old(w.buf) + SerAll(j, elems)
    decreases elems, 1
  {
    for i := 0 to |elems|
      invariant w.buf + SerAll(j, elems[i..]) == old(w.buf) + SerAll(j, elems)
    {
      ghost var before := w.buf;
      Serialize(w, j, elems[i]);
      assert elems[i..][1..] == elems[i + 1..];
      assert w.buf + SerAll(j, elems[i + 1..]) == before + SerAll(j, elems[i..]);
    }
  }

  method WriteBlock(w: Writer, tag: byte, data: seq<byte>)
    modifies w
    ensures w.buf == old(w.buf) + Tagged(tag, data)
  {
    WriteHead(w, tag, ToU32(|data|));
    w.Write(data);
  }

  method WriteHead(w: Writer, tag: byte, n: uint32)
    modifies w
    ensures w.buf == old(w.buf) + ([tag] + Encode(n))
  {
    w.WriteByte(tag);
    w.WriteVQL(n);
  }

  /** The recursive reader terminates on every input and computes Parse, errors included. */
  method Deserialize(r: Reader, j: Json) returns (v: Result<Value, WireError>)
    requires r.Valid()
    modifies r
    ensures r.Valid() && r.pos >= old(r.pos)
    ensures match Parse(j, r.buf, old(r.pos))
            case Ok((val, _)) => v == Ok(val)
            case Err(e) => v == Err(e)
    ensures r.pos == Stop(j, r.buf, old(r.pos))
    decreases |r.buf| - r.pos, 0
  {
    var tag := r.ReadByte();
    if tag.Err? {
      return Err(tag.error);
    }
    if tag.value == TAG_UNDEFINED {
      return Ok(Nil);
    }
    if tag.value > TAG_INT {
      return Err(BadTag);
    }
    var length := r.ReadVQL();
    if length.Err? {
      return Err(length.error);
    }
    if tag.value == TAG_INT {
      return Ok(Int(length.value));
    }
    if tag.value == TAG_ARRAY {
      v := DeserializeArray(r, j, length.value);
      return;
    }
    var data := r.ReadN(length.value);
    if data.Err? {
      return Err(data.error);
    }
    if tag.value == TAG_STRING {
      return Ok(Str(data.value));
    }
    if tag.value == TAG_OBJECT {
      var o := j.unmarshal(data.value);
      return if o.Some? then Ok(o.value) else Err(BadJson);
    }
    return Ok(Buf(data.value));
  }

  /** The loop over the elements of an array of length `n`. */
  method DeserializeArray(r: Reader, j: Json, n: nat) returns (v: Result<Value, WireError>)
    requires r.Valid()
    modifies r
    ensures r.Valid() && r.pos >= old(r.pos)
    ensures match ParseAll(j, r.buf, old(r.pos), n)
            case Ok((vs, _)) => v == Ok(Arr(vs))
            case Err(e) => v == Err(e)
    ensures r.pos == StopAll(j, r.buf, old(r.pos), n)
    decreases |r.buf| - r.pos, 1
  {
    ghost var whole := ParseAll(j, r.buf, r.pos, n);
    var result: seq<Value> := [];
    ArrayStart(whole);
    for i := 0 to n
      invariant r.Valid() && old(r.pos) <= r.pos
      invariant ArrayMidway(whole, result, ParseAll(j, r.buf, r.pos, n - i))
      invariant StopAll(j, r.buf, r.pos, n - i) == StopAll(j, r.buf, old(r.pos), n)
    {
      ghost var at := r.pos;
      var el := Deserialize(r, j);
      if el.Err? {
        return Err(el.error);
      }
      StopsAfterValue(j, r.buf, at);
      ArrayStep(whole, result, el.value, ParseAll(j, r.buf, r.pos, n - i - 1));
      result := result + [el.value];
    }
    assert result + [] == result;
    v := Ok(Arr(result));
  }

  /** The whole array is the elements read so far followed by the rest still to be read. */
  ghost predicate ArrayMidway(whole: ParsedArray, done: seq<Value>, rest: ParsedArray) {
    match rest
    case Err(e) => whole == Err(e)
    case Ok((vs, end)) => whole == Ok((done + vs, end))
  }

  lemma ArrayStart(whole: ParsedArray)
    ensures ArrayMidway(whole, [], whole)
  {
    if whole.Ok? { assert [] + whole.value.0 == whole.value.0; }
  }

  lemma ArrayStep(whole: ParsedArray, done: seq<Value>, v: Value, rest: ParsedArray)
    requires ArrayMidway(whole, done, if rest.Ok? then Ok(([v] + rest.value.0, rest.value.1)) else rest)
    ensures ArrayMidway(whole, done + [v], rest)
  {
    if rest.Ok? { assert done + ([v] + rest.value.0) == done + [v] + rest.value.0; }
  }
}
