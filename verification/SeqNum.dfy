/** TCP sequence numbers: arithmetic modulo 2^32 (section 3.4 of RFC 9293). */
module SeqNum {
  import opened Common

  /** Signed comparison of two sequence numbers: the sign of (a - b) read as a 32-bit two's complement number. */
  function Compare(a: uint32, b: uint32): int {
    var d := Sub32(a, b);
    if d == 0 then 0 else if d < TWO31 then 1 else -1
  }

  lemma WrapSub(x: int, y: int)
    ensures Wrap(Wrap(x) - Wrap(y)) == Wrap(x - y)
  {
    assert x == x / TWO32 * TWO32 + x % TWO32;
    assert y == y / TWO32 * TWO32 + y % TWO32;
    assert x - y == (x / TWO32 - y / TWO32) * TWO32 + (x % TWO32 - y % TWO32);
  }

  lemma WrapAdd(x: int, y: int)
    ensures Wrap(Wrap(x) + y) == Wrap(x + y)
    ensures 0 <= y < TWO32 ==> Add32(Wrap(x), y) == Wrap(x + y)
  {
    assert x == x / TWO32 * TWO32 + x % TWO32;
  }

  /** A difference of sequence numbers recovers the distance of the positions. */
  lemma WrapDistance(x: int, y: int)
    requires 0 <= x - y < TWO32
    ensures Sub32(Wrap(x), Wrap(y)) == x - y
  {
    WrapSub(x, y);
    Arithmetic32(Wrap(x), Wrap(y));
  }

  /** On stream positions less than 2^31 apart the wrapped comparison is the comparison of the positions. */
  lemma CompareLifted(x: int, y: int)
    requires -TWO31 < x - y < TWO31
    ensures Compare(Wrap(x), Wrap(y)) == if x == y then 0 else if x > y then 1 else -1
  {
    WrapSub(x, y);
    Arithmetic32(Wrap(x), Wrap(y));
  }

  /** Positions less than 2^32 apart are determined by their sequence numbers. */
  lemma WrapInjective(x: int, y: int)
    requires -TWO32 < x - y < TWO32
    ensures Wrap(x) == Wrap(y) <==> x == y
  {
    WrapSub(x, y);
  }
}
