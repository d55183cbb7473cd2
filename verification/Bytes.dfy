/** Bytes, byte streams, and the few integer conversions the C++ code performs implicitly. */
module Bytes {

  type byte = x: int | 0 <= x < 256

  const INT32_MAX: int := 0x7fff_ffff

  newtype int32 = x: int | -0x8000_0000 <= x <= 0x7fff_ffff

  datatype Option<+T> = None | Some(value: T)

  /** The implicit conversion of a `size_t` argument to an `int` parameter (two's complement). */
  function NarrowToInt32(n: nat): (r: int)
    ensures n <= INT32_MAX ==> r == n
    ensures r <= n
    ensures -0x8000_0000 <= r <= INT32_MAX && (n - r) % 0x1_0000_0000 == 0
  {
    var low := n % 0x1_0000_0000;
    if low <= INT32_MAX then low else low - 0x1_0000_0000
  }

  function Min(a: int, b: int): int {
    if a <= b then a else b
  }

  /** All chunks of a stream, one after the other. */
  function Concat(chunks: seq<seq<byte>>): seq<byte> {
    if chunks == [] then [] else Concat(chunks[..|chunks| - 1]) + chunks[|chunks| - 1]
  }

  lemma ConcatSnoc(chunks: seq<seq<byte>>, last: seq<byte>)
    ensures Concat(chunks + [last]) == Concat(chunks) + last
  {
    assert (chunks + [last])[..|chunks|] == chunks;
  }

  lemma {:induction false} ConcatAppend(a: seq<seq<byte>>, b: seq<seq<byte>>)
    ensures Concat(a + b) == Concat(a) + Concat(b)
  {
    if b == [] {
      assert a + b == a;
    } else {
      var front, last := b[..|b| - 1], b[|b| - 1];
      assert a + b == (a + front) + [last];
      ConcatSnoc(a + front, last);
      ConcatAppend(a, front);
    }
  }

  lemma {:induction false} ConcatCons(first: seq<byte>, rest: seq<seq<byte>>)
    ensures Concat([first] + rest) == first + Concat(rest)
  {
    ConcatAppend([first], rest);
    ConcatSnoc([], first);
    assert [] + [first] == [first];
  }
}
