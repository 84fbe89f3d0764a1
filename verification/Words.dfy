/** Bytes and 32-bit words, modelled as ranges of the integers with explicit wrap-around. */
module Words {
  const U32 := 0x1_0000_0000

  type byte = x: int | 0 <= x < 256
  type uint32 = x: int | 0 <= x < 0x1_0000_0000

  /** The conversion uint32(n) of an integer of any sign. */
  function ToU32(n: int): uint32 {
    n % U32
  }

  /** `s` stands in `buf` at position `pos`. */
  predicate Occurs(buf: seq<byte>, pos: nat, s: seq<byte>) {
    pos + |s| <= |buf| && forall i | 0 <= i < |s| :: buf[pos + i] == s[i]
  }

  lemma OccursSplit(buf: seq<byte>, pos: nat, a: seq<byte>, b: seq<byte>)
    ensures Occurs(buf, pos, a + b) <==> Occurs(buf, pos, a) && Occurs(buf, pos + |a|, b)
  {
    if Occurs(buf, pos, a + b) {
      forall i | 0 <= i < |a| ensures buf[pos + i] == a[i] { assert (a + b)[i] == a[i]; }
      forall i | 0 <= i < |b| ensures buf[pos + |a| + i] == b[i] { assert (a + b)[|a| + i] == b[i]; }
    }
  }

  lemma OccursSlice(buf: seq<byte>, pos: nat, s: seq<byte>)
    ensures Occurs(buf, pos, s) <==> pos + |s| <= |buf| && buf[pos..pos + |s|] == s
  {
    if pos + |s| <= |buf| && buf[pos..pos + |s|] == s {
      forall i | 0 <= i < |s| ensures buf[pos + i] == s[i] { assert buf[pos..pos + |s|][i] == s[i]; }
    }
  }

  lemma ConsAppend<T>(s: seq<T>, t: seq<T>)
    requires s != []
    ensures [s[0]] + (s[1..] + t) == s + t
  {
  }

  lemma AppendAssoc<T>(a: seq<T>, b: seq<T>, c: seq<T>)
    ensures a + (b + c) == a + b + c
  {
  }

  lemma ConsCancel<T>(x: T, a: seq<T>, b: seq<T>)
    requires [x] + a == [x] + b
    ensures a == b
  {
    assert a == ([x] + a)[1..] && b == ([x] + b)[1..];
  }
}
