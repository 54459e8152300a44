/** 16-bit words as the container stores them.

    Java keeps every start and length in a signed `short`; the container
    reads them back unsigned (`Util.toIntUnsigned`).  Here a stored word is
    the unsigned value, a `(short)` cast is reduction modulo 2^16, and
    `Signed` gives the value Java's arithmetic sees when a short is promoted
    to `int` without the unsigned read. */
module Shorts {

  /** A Java `short` read as unsigned. */
  type U16 = x: int | 0 <= x < 0x1_0000

  /** One byte on the wire. */
  type Byte = x: int | 0 <= x < 0x100

  /** The `(short)` cast, read back unsigned: two's-complement truncation. */
  function ToShort(x: int): (r: U16)
    ensures 0 <= x < 0x1_0000 ==> r == x
    ensures (x - r) % 0x1_0000 == 0
  {
    x % 0x1_0000
  }

  /** The value a `short` holding `x` has once Java promotes it to `int`. */
  function Signed(x: U16): (r: int)
    ensures -0x8000 <= r < 0x8000
    ensures ToShort(r) == x
    ensures x < 0x8000 <==> r == x
  {
    if x < 0x8000 then x else x - 0x1_0000
  }

  /** `writeShort(Short.reverseBytes(w))`: the low byte goes first. */
  function WordBytes(w: U16): (bs: seq<Byte>)
    ensures |bs| == 2
    ensures bs[0] as int + 0x100 * bs[1] as int == w
  {
    [w % 0x100, w / 0x100]
  }

  /** `Short.reverseBytes(readShort())` read unsigned: the low byte came first. */
  function WordOf(lo: Byte, hi: Byte): (w: U16)
    ensures WordBytes(w) == [lo, hi]
  {
    lo + 0x100 * hi
  }

  /** The two bytes of a word read back give the word. */
  lemma WordOfBytes(w: U16)
    ensures WordOf(WordBytes(w)[0], WordBytes(w)[1]) == w
  {
  }

  /** Two ints that differ by a multiple of 2^16 cast to the same `short`:
      Java's signed arithmetic on shorts and the unsigned arithmetic of the
      model agree once the result is cast back. */
  lemma CastCongruent(x: int, y: int)
    requires (x - y) % 0x1_0000 == 0
    ensures ToShort(x) == ToShort(y)
  {
    var q := (x - y) / 0x1_0000;
    assert x == y + 0x1_0000 * q;
  }

  /** Adding `d` to a short in Java's signed arithmetic and casting back
      gives the unsigned sum whenever that sum fits in 16 bits. */
  lemma SignedSum(v: U16, d: int)
    requires 0 <= v + d < 0x1_0000
    ensures ToShort(Signed(v) + d) == v + d
  {
    CastCongruent(Signed(v) + d, v + d);
  }
}
