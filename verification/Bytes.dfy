/** Bytes, machine integers and the few sequence functions shared by every codec. */
module Bytes {

  type byte = b: int | 0 <= b < 0x100
  type uint16 = v: int | 0 <= v < 0x1_0000
  type uint32 = v: int | 0 <= v < 0x1_0000_0000
  type int32 = v: int | -0x8000_0000 <= v < 0x8000_0000

  datatype Option<+T> = None | Some(value: T)

  function Min(a: int, b: int): int {
    if a <= b then a else b
  }

  /** Concatenation of a list of byte strings (or of any other sequences). */
  function Flatten<T>(xs: seq<seq<T>>): seq<T> {
    if xs == [] then [] else xs[0] + Flatten(xs[1..])
  }

  /** The data bytes of a string: those whose high bit is clear, in order. */
  function LowBytes(bs: seq<byte>): seq<byte> {
    if bs == [] then []
    else if bs[0] < 0x80 then [bs[0]] + LowBytes(bs[1..])
    else LowBytes(bs[1..])
  }

  predicate SevenBit(bs: seq<byte>) {
    forall i :: 0 <= i < |bs| ==> bs[i] < 0x80
  }

  lemma {:induction false} LowBytesConcat(a: seq<byte>, b: seq<byte>)
    ensures LowBytes(a + b) == LowBytes(a) + LowBytes(b)
  {
    if a == [] {
      assert a + b == b;
    } else {
      assert (a + b)[1..] == a[1..] + b;
      LowBytesConcat(a[1..], b);
    }
  }

  lemma {:induction false} LowBytesOfData(bs: seq<byte>)
    requires SevenBit(bs)
    ensures LowBytes(bs) == bs
  {
    if bs != [] {
      LowBytesOfData(bs[1..]);
    }
  }

  lemma Assoc<T>(a: seq<T>, b: seq<T>, c: seq<T>)
    ensures (a + b) + c == a + (b + c)
  {
  }
}
