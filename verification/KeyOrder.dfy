/** How far `node->key - key`, cut to 32 bits, can stand for the comparison of two keys. */
module KeyOrder {
  import opened Numbers

  predicate IsInt32(x: int) {
    -TWO31 <= x < TWO31
  }

  /** The 32-bit two's-complement number that is `x` modulo 2^32. */
  function Int32(x: int): (y: int)
    ensures IsInt32(y) && (y - x) % TWO32 == 0
  {
    (x + TWO31) % TWO32 - TWO31
  }

  /** A difference that fits is not changed. */
  lemma Int32Fits(x: int)
    ensures IsInt32(x) ==> Int32(x) == x
  {
  }

  /** The search turns left for 0 < ret, right for 0 > ret and stops for ret == 0, as the order of the keys asks. */
  predicate TurnsAsOrdered(a: int, b: int) {
    var ret := Int32(a - b);
    (0 < ret <==> b < a) && (0 > ret <==> b > a)
  }

  lemma TurnsAsOrderedExactly(a: int, b: int)
    requires IsInt32(a) && IsInt32(b)
    ensures TurnsAsOrdered(a, b) <==> IsInt32(a - b)
    ensures Int32(a - b) == 0 <==> a == b
  {
  }

  /** Keys of one sign never differ by too much; the least and the greatest key do. */
  lemma OneSignIsEnough(a: int, b: int)
    requires IsInt32(a) && IsInt32(b)
    ensures (0 <= a <==> 0 <= b) ==> TurnsAsOrdered(a, b)
    ensures !TurnsAsOrdered(-TWO31, TWO31 - 1) && !TurnsAsOrdered(TWO31 - 1, -1)
  {
  }
}
