/**
 Variable-length quantities: unsigned LEB128 (section 7.6 of DWARF Version 5) cut to 32 bits.
 `Encode` and `Parse` are the specification; the Writer and Reader methods run the loops of the
 source against it.
 */
module Vql {
  import opened Wrappers
  import opened Words

  datatype WireError = PastEnd | Overflow | BadTag | BadJson

  /** The most groups of seven bits that a reader accepts. */
  const MAX_GROUPS := 6

  function Encode(v: nat): seq<byte> {
    if v < 128 then [v] else [v % 128 + 128] + Encode(v / 128)
  }

  type digit = x: int | 0 <= x < 128

  /** The seven payload bits of a byte. */
  function Low7(b: byte): digit {
    b % 128
  }

  /** The base-128 number whose digits are `ds`, lowest first. */
  function Sum(ds: seq<digit>): nat {
    if ds == [] then 0 else ds[0] + 128 * Sum(ds[1..])
  }

  /** The groups of seven bits read from `pos`, when `g` groups have been read before it. */
  function Groups(buf: seq<byte>, pos: nat, g: nat): (r: Result<(seq<digit>, nat), WireError>)
    requires g < MAX_GROUPS
    ensures r.Ok? ==> pos < r.value.1 <= |buf| && r.value.1 <= pos + MAX_GROUPS - g
    ensures r.Ok? ==> |r.value.0| == r.value.1 - pos
    decreases MAX_GROUPS - g
  {
    if pos >= |buf| then Err(PastEnd)
    else if buf[pos] < 128 then Ok(([buf[pos]], pos + 1))
    else if g + 1 == MAX_GROUPS then Err(Overflow)
    else Prepend([Low7(buf[pos])], Groups(buf, pos + 1, g + 1))
  }

  function Prepend(ds: seq<digit>, tail: Result<(seq<digit>, nat), WireError>): Result<(seq<digit>, nat), WireError> {
    match tail
    case Err(e) => Err(e)
    case Ok((rest, q)) => Ok((ds + rest, q))
  }

  /** What a reader at `pos` returns: the value and the next position. */
  function Parse(buf: seq<byte>, pos: nat): (r: Result<(uint32, nat), WireError>)
    ensures r.Ok? ==> pos < r.value.1 <= |buf| && r.value.1 <= pos + MAX_GROUPS
  {
    match Groups(buf, pos, 0)
    case Err(e) => Err(e)
    case Ok((ds, q)) => Ok((ToU32(Sum(ds)), q))
  }

  /** Where the reader stands afterwards: on an error past the last byte, or after the sixth group. */
  function Stop(buf: seq<byte>, pos: nat): nat {
    match Parse(buf, pos)
    case Ok((_, q)) => q
    case Err(e) => if e == Overflow then pos + MAX_GROUPS else |buf|
  }

  // ---------- Exactness ----------

  function Pow128(k: nat): nat {
    if k == 0 then 1 else 128 * Pow128(k - 1)
  }

  lemma {:induction false} EncodeLength(v: nat, k: nat)
    requires k >= 1
    ensures |Encode(v)| <= k <==> v < Pow128(k)
    decreases v, k
  {
    if k == 1 {
      assert Pow128(1) == 128;
    } else {
      if v >= 128 {
        EncodeLength(v / 128, k - 1);
        assert v / 128 < Pow128(k - 1) <==> v < 128 * Pow128(k - 1);
      } else {
        PowGrows(k - 1);
      }
    }
  }

  lemma {:induction false} PowGrows(k: nat)
    ensures Pow128(k) >= 1
  {
    if k > 0 { PowGrows(k - 1); }
  }

  lemma U32NeedsFive(v: uint32)
    ensures |Encode(v)| <= 5
  {
    PowValues();
    EncodeLength(v, 5);
  }

  lemma {:induction false} GroupsOfEncode(buf: seq<byte>, pos: nat, v: nat, g: nat)
    requires g + |Encode(v)| <= MAX_GROUPS
    requires Occurs(buf, pos, Encode(v))
    ensures Groups(buf, pos, g).Ok?
    ensures Sum(Groups(buf, pos, g).value.0) == v && Groups(buf, pos, g).value.1 == pos + |Encode(v)|
    decreases v
  {
    assert buf[pos + 0] == Encode(v)[0];
    if v >= 128 {
      OccursSplit(buf, pos, [v % 128 + 128], Encode(v / 128));
      GroupsOfEncode(buf, pos + 1, v / 128, g + 1);
      var ds := Groups(buf, pos, g).value.0;
      assert ds[1..] == Groups(buf, pos + 1, g + 1).value.0;
    }
  }

  /** Reading what was written restores the word and stops exactly after it. */
  lemma RoundTrip(buf: seq<byte>, pos: nat, v: uint32)
    requires Occurs(buf, pos, Encode(v))
    ensures Parse(buf, pos) == Ok((v, pos + |Encode(v)|))
  {
    U32NeedsFive(v);
    GroupsOfEncode(buf, pos, v, 0);
  }

  lemma {:induction false} SumBound(ds: seq<digit>)
    ensures Sum(ds) < Pow128(|ds|)
  {
    if ds != [] { SumBound(ds[1..]); }
  }

  lemma {:induction false} SumSnoc(ds: seq<digit>, d: digit)
    ensures Sum(ds + [d]) == Sum(ds) + Pow128(|ds|) * d
  {
    if ds == [] {
      assert [d][1..] == [];
    } else {
      SumSnoc(ds[1..], d);
      assert (ds + [d])[1..] == ds[1..] + [d];
    }
  }

  lemma {:induction false} EncodeMonotone(a: nat, b: nat)
    requires a <= b
    ensures |Encode(a)| <= |Encode(b)|
    decreases b
  {
    if a >= 128 { EncodeMonotone(a / 128, b / 128); }
  }

  /** No accepted encoding of a word is shorter than the one the writer emits. */
  lemma WriterIsShortest(buf: seq<byte>, pos: nat)
    requires Parse(buf, pos).Ok?
    ensures |Encode(Parse(buf, pos).value.0)| <= Parse(buf, pos).value.1 - pos
  {
    var (ds, q) := Groups(buf, pos, 0).value;
    SumBound(ds);
    EncodeLength(Sum(ds), q - pos);
    EncodeMonotone(ToU32(Sum(ds)), Sum(ds));
  }

  /** No encoding is a proper prefix of another. */
  lemma {:induction false} PrefixFree(a: nat, b: nat)
    requires Encode(a) <= Encode(b)
    ensures a == b
    decreases a
  {
    assert Encode(a)[0] == Encode(b)[0];
    if a >= 128 {
      assert Encode(a / 128) == Encode(a)[1..] && Encode(b / 128) == Encode(b)[1..];
      assert Encode(b)[1..][..|Encode(a)| - 1] == Encode(b)[..|Encode(a)|][1..];
      PrefixFree(a / 128, b / 128);
    }
  }

  /** Continuation bits decide acceptance: success needs a last byte below 128 among the first six. */
  lemma {:induction false} GroupsAccepts(buf: seq<byte>, pos: nat, g: nat)
    requires g < MAX_GROUPS
    ensures Groups(buf, pos, g).Ok? <==> exists i | pos <= i < pos + MAX_GROUPS - g && i < |buf| :: buf[i] < 128
    ensures Groups(buf, pos, g) == Err(Overflow) <==>
            pos + MAX_GROUPS - g <= |buf| && forall i | pos <= i < pos + MAX_GROUPS - g :: buf[i] >= 128
    decreases MAX_GROUPS - g
  {
    if pos < |buf| && buf[pos] >= 128 && g + 1 < MAX_GROUPS {
      GroupsAccepts(buf, pos + 1, g + 1);
    }
  }

  /** A reader succeeds exactly if one of the next six bytes is the last of a number. */
  lemma ParseAccepts(buf: seq<byte>, pos: nat)
    ensures Parse(buf, pos).Ok? <==> exists i | pos <= i < pos + MAX_GROUPS && i < |buf| :: buf[i] < 128
  {
    GroupsAccepts(buf, pos, 0);
  }

  lemma {:induction false} GroupsExtend(buf: seq<byte>, more: seq<byte>, pos: nat, g: nat)
    requires g < MAX_GROUPS && Groups(buf, pos, g).Ok?
    ensures Groups(buf + more, pos, g) == Groups(buf, pos, g)
    decreases MAX_GROUPS - g
  {
    if buf[pos] >= 128 { GroupsExtend(buf, more, pos + 1, g + 1); }
  }

  /** The examples that the protocol description gives. */
  lemma DocumentedEncodings()
    ensures Encode(0) == [0x00] && Encode(127) == [0x7F]
    ensures Encode(128) == [0x80, 0x01] && Encode(16384) == [0x80, 0x80, 0x01]
  {
    assert Encode(128) == [128] + Encode(1);
    assert Encode(16384) == [128] + Encode(128);
  }

  // ---------- The loops of the source ----------

  /** uint32(x) << n, zero once every bit has left the word. */
  function Shl(x: nat, n: nat): uint32 {
    if n >= 32 then 0 else ToU32(x * Pow2(n))
  }

  function Pow2(n: nat): nat {
    if n == 0 then 1 else 2 * Pow2(n - 1)
  }

  class Writer {
    var buf: seq<byte>

    constructor ()
      ensures buf == []
    {
      buf := [];
    }

    method WriteByte(b: byte)
      modifies this
      ensures buf == old(buf) + [b]
    {
      buf := buf + [b];
    }

    method Write(p: seq<byte>)
      modifies this
      ensures buf == old(buf) + p
    {
      buf := buf + p;
    }

    method WriteVQL(v: uint32)
      modifies this
      ensures buf == old(buf) + Encode(v)
    {
      if v == 0 {
        WriteByte(0);
        return;
      }
      var value: nat := v;
      while value > 0
        invariant if value > 0 then buf + Encode(value) == old(buf) + Encode(v) else buf == old(buf) + Encode(v)
      {
        var b := value % 128;
        ghost var whole := buf + Encode(value);
        ghost var before := value;
        value := value / 128;
        if value > 0 {
          b := b + 128;
        }
        WriteByte(b);
        assert before >= 128 ==> whole == buf + Encode(value);
      }
    }
  }

  class Reader {
    const buf: seq<byte>
    var pos: nat

    predicate Valid()
      reads this
    {
      pos <= |buf|
    }

    constructor (data: seq<byte>)
      ensures Valid() && buf == data && pos == 0
    {
      buf, pos := data, 0;
    }

    method ReadByte() returns (r: Result<byte, WireError>)
      requires Valid()
      modifies this
      ensures Valid()
      ensures if old(pos) < |buf| then r == Ok(buf[old(pos)]) && pos == old(pos) + 1
              else r == Err(PastEnd) && pos == old(pos)
    {
      if pos >= |buf| {
        return Err(PastEnd);
      }
      r := Ok(buf[pos]);
      pos := pos + 1;
    }

    method ReadN(n: nat) returns (r: Result<seq<byte>, WireError>)
      requires Valid()
      modifies this
      ensures Valid()
      ensures if old(pos) + n <= |buf| then r == Ok(buf[old(pos)..old(pos) + n]) && pos == old(pos) + n
              else r == Err(PastEnd) && pos == old(pos)
    {
      if pos + n > |buf| {
        return Err(PastEnd);
      }
      r := Ok(buf[pos..pos + n]);
      pos := pos + n;
    }

    /** The shift-and-or loop computes the base-128 sum modulo 2^32. */
    method ReadVQL() returns (r: Result<uint32, WireError>)
      requires Valid()
      modifies this
      ensures Valid() && pos >= old(pos)
      ensures match Parse(buf, old(pos))
              case Ok((v, q)) => r == Ok(v)
              case Err(e) => r == Err(e)
      ensures pos == Stop(buf, old(pos))
    {
      var value: uint32 := 0;
      var n := 0;
      ghost var ds: seq<digit> := [];
      MidwayStart(buf, pos);
      while true
        invariant n == 7 * |ds| && pos <= |buf|
        invariant Midway(buf, old(pos), pos, ds, value)
        decreases 35 - n
      {
        var b := ReadByte();
        if b.Err? {
          return Err(b.error);
        }
        GroupStep(buf, old(pos), pos - 1, ds, value, value + Shl(Low7(b.value), n));
        // The bits of value lie below bit n, so the source's bitwise or is a sum.
        value := value + Shl(Low7(b.value), n);
        if b.value < 128 {
          return Ok(value);
        }
        if n > 28 {
          return Err(Overflow);
        }
        ds := ds + [Low7(b.value)];
        n := n + 7;
      }
    }
  }

  /** The loop, now at `pos`, has read the groups `ds` from `start` and holds the word `value`. */
  ghost predicate Midway(buf: seq<byte>, start: nat, pos: nat, ds: seq<digit>, value: nat) {
    && |ds| < MAX_GROUPS
    && pos == start + |ds|
    && value == ToU32(Sum(ds))
    && Groups(buf, start, 0) == Prepend(ds, Groups(buf, pos, |ds|))
  }

  lemma MidwayStart(buf: seq<byte>, start: nat)
    ensures Midway(buf, start, start, [], 0)
  {
    assert forall rest: seq<digit> :: [] + rest == rest;
  }

  /** One turn of the loop: stop with the parsed word, stop with an error, or go on. */
  lemma GroupStep(buf: seq<byte>, start: nat, pos: nat, ds: seq<digit>, value: nat, value': nat)
    requires Midway(buf, start, pos, ds, value) && pos < |buf|
    requires value' == value + Shl(Low7(buf[pos]), 7 * |ds|)
    ensures value' < U32
    ensures buf[pos] < 128 ==> Parse(buf, start) == Ok((value', pos + 1))
    ensures buf[pos] >= 128 && |ds| == 5 ==> Parse(buf, start) == Err(Overflow)
    ensures buf[pos] >= 128 && |ds| < 5 ==> Midway(buf, start, pos + 1, ds + [Low7(buf[pos])], value')
  {
    ShiftStep(ds, Low7(buf[pos]));
    DigitStep(buf, start, pos, ds);
  }

  /** The same turn on the digits alone. */
  lemma DigitStep(buf: seq<byte>, start: nat, pos: nat, ds: seq<digit>)
    requires |ds| < MAX_GROUPS && pos < |buf|
    requires Groups(buf, start, 0) == Prepend(ds, Groups(buf, pos, |ds|))
    ensures buf[pos] < 128 ==> Groups(buf, start, 0) == Ok((ds + [Low7(buf[pos])], pos + 1))
    ensures buf[pos] >= 128 && |ds| == 5 ==> Groups(buf, start, 0) == Err(Overflow)
    ensures buf[pos] >= 128 && |ds| < 5 ==>
              Groups(buf, start, 0) == Prepend(ds + [Low7(buf[pos])], Groups(buf, pos + 1, |ds| + 1))
  {
    if buf[pos] < 128 {
      assert Low7(buf[pos]) == buf[pos];
    } else if |ds| < 5 {
      PrependAssoc(ds, [Low7(buf[pos])], Groups(buf, pos + 1, |ds| + 1));
    }
  }

  lemma PrependAssoc(a: seq<digit>, b: seq<digit>, tail: Result<(seq<digit>, nat), WireError>)
    ensures Prepend(a, Prepend(b, tail)) == Prepend(a + b, tail)
  {
    if tail.Ok? {
      assert a + (b + tail.value.0) == a + b + tail.value.0;
    }
  }

  /** Adding a shifted group to the word adds one digit to the base-128 sum, modulo 2^32. */
  lemma {:induction false} ShiftStep(ds: seq<digit>, d: digit)
    requires |ds| < MAX_GROUPS
    ensures ToU32(Sum(ds)) + Shl(d, 7 * |ds|) == ToU32(Sum(ds + [d]))
  {
    SumBound(ds);
    SumSnoc(ds, d);
    PowValues();
    WordStep(Sum(ds), |ds|, d);
  }

  /** The place values 128^g of the six groups. */
  function Place(g: nat): nat
    requires g < MAX_GROUPS
  {
    [1, 0x80, 0x4000, 0x20_0000, 0x1000_0000, 0x8_0000_0000][g]
  }

  lemma WordStep(low: nat, g: nat, d: digit)
    requires g < MAX_GROUPS && low < Place(g)
    ensures ToU32(low) + Shl(d, 7 * g) == ToU32(low + Place(g) * d)
  {
    ShlValues(d);
    if g == 5 {
      WordSum(low, 8 * d);
    } else if g == 4 {
      WordSum(low + 0x1000_0000 * (d % 16), d / 16);
      assert d == 16 * (d / 16) + d % 16;
    } else {
      SmallStep(low, g, d);
    }
  }

  lemma SmallStep(low: nat, g: nat, d: digit)
    requires g < 4 && low < Place(g)
    ensures ToU32(low) == low && ToU32(low + Place(g) * d) == low + Place(g) * d
  {
    if g == 3 {
      WordSum(low + 0x20_0000 * d, 0);
    } else if g == 2 {
      WordSum(low + 0x4000 * d, 0);
    } else if g == 1 {
      WordSum(low + 0x80 * d, 0);
    }
  }

  lemma WordSum(low: nat, k: nat)
    ensures ToU32(low + k * U32) == ToU32(low)
    ensures low < U32 ==> ToU32(low) == low
  {
  }

  lemma {:induction false} ShlValues(d: digit)
    ensures Shl(d, 0) == d && Shl(d, 7) == 0x80 * d && Shl(d, 14) == 0x4000 * d && Shl(d, 21) == 0x20_0000 * d
    ensures Shl(d, 28) == 0x1000_0000 * (d % 16) && Shl(d, 35) == 0
  {
    PowValues();
    PowsAgree(0);
    PowsAgree(1);
    PowsAgree(2);
    PowsAgree(3);
    PowsAgree(4);
    WordSum(0x1000_0000 * (d % 16), d / 16);
  }

  lemma PowValues()
    ensures forall g | 0 <= g < MAX_GROUPS :: Pow128(g) == Place(g)
    ensures Pow128(5) == 0x8_0000_0000
  {
    assert Pow128(2) == 0x4000;
    assert Pow128(4) == 0x1000_0000;
  }

  lemma {:induction false} PowsAgree(g: nat)
    ensures Pow2(7 * g) == Pow128(g)
  {
    if g > 0 {
      PowsAgree(g - 1);
      var m := 7 * (g - 1);
      assert Pow2(m + 7) == 2 * Pow2(m + 6) == 4 * Pow2(m + 5) == 8 * Pow2(m + 4) == 16 * Pow2(m + 3)
          == 32 * Pow2(m + 2) == 64 * Pow2(m + 1) == 128 * Pow2(m);
    }
  }
}
