/** `SeqNumber`: 32-bit sequence numbers with wrap-around arithmetic and circular order. */
module SeqNumbers {

  const MODULUS: int := 0x1_0000_0000
  const HALF: int := 0x8000_0000

  type uint32 = x: int | 0 <= x < 0x1_0000_0000

  function Wrap(n: int): uint32 {
    n % 0x1_0000_0000
  }

  function Add(a: uint32, offset: int): uint32 {
    Wrap(a + offset)
  }

  function Sub(a: uint32, b: uint32): uint32 {
    Wrap(a - b)
  }

  /** The cast to a signed 32-bit integer. */
  function AsInt32(x: uint32): int {
    if x < 0x8000_0000 then x else x - 0x1_0000_0000
  }

  predicate Less(a: uint32, b: uint32) {
    a != b && AsInt32(Sub(a, b)) < 0
  }

  predicate Greater(a: uint32, b: uint32) {
    a != b && !(AsInt32(Sub(a, b)) < 0)
  }

  /** Within 2^31 of each other, wrapped positions compare as the unbounded ones do. */
  lemma OrderAgrees(a: int, b: int)
    requires -HALF < a - b < HALF
    ensures Less(Wrap(a), Wrap(b)) <==> a < b
    ensures Greater(Wrap(a), Wrap(b)) <==> a > b
    ensures Wrap(a) == Wrap(b) <==> a == b
  {
    assert Sub(Wrap(a), Wrap(b)) == Wrap(a - b);
  }

  /** The comparison is a strict order on a pair exactly when it is not 2^31 apart:
      at that distance each number is "less" than the other. */
  lemma BothLessExactlyAtHalf(a: uint32, b: uint32)
    ensures Less(a, b) && Less(b, a) <==> Sub(a, b) == HALF
    ensures Sub(a, b) != HALF ==> (Greater(a, b) <==> Less(b, a))
  {
  }

  /** The circular order is not transitive, although it is returned as a strong ordering. */
  lemma OrderIsNotTransitive()
    ensures exists a: uint32, b: uint32, c: uint32 :: Less(a, b) && Less(b, c) && !Less(a, c)
  {
    var a: uint32, b: uint32, c: uint32 := 0, 0x6000_0000, 0xC000_0000;
    assert Less(a, b) && Less(b, c) && !Less(a, c);
  }

  lemma LessByDistance(a: uint32, b: uint32)
    ensures Less(a, b) <==> 0 < Sub(b, a) <= HALF
  {
  }

  lemma SubIsDistance(a: uint32, b: uint32)
    ensures Sub(b, a) == if a <= b then b - a else b - a + MODULUS
  {
  }

  /** Two steps upwards make one step upwards exactly when together they span at most 2^31. */
  lemma TransitiveIff(a: uint32, b: uint32, c: uint32)
    requires Less(a, b) && Less(b, c)
    ensures Less(a, c) <==> Sub(b, a) + Sub(c, b) <= HALF
  {
    LessByDistance(a, b);
    LessByDistance(b, c);
    LessByDistance(a, c);
    hide Less;
    SubIsDistance(a, b);
    SubIsDistance(b, c);
    SubIsDistance(a, c);
    hide Sub;
  }

  /** The unbounded position at or after `base` that a wrapped number stands for. */
  function Unwrap(base: int, x: uint32): int {
    base + Wrap(x - base)
  }

  lemma UnwrapIsLeast(base: int, x: uint32, n: int)
    requires base <= n && Wrap(n) == x
    ensures Unwrap(base, x) <= n
    ensures n < base + MODULUS ==> n == Unwrap(base, x)
  {
    assert Wrap(n - base) == Wrap(x - base);
  }

  lemma WrapUnwrap(base: int, x: uint32)
    ensures Wrap(Unwrap(base, x)) == x
    ensures base <= Unwrap(base, x) < base + MODULUS
  {
  }

  lemma SubOfWrap(x: uint32, base: int)
    ensures Sub(x, Wrap(base)) == Wrap(x - base)
  {
  }

  lemma AddToWrap(base: int, offset: int)
    ensures Add(Wrap(base), offset) == Wrap(base + offset)
  {
  }

  lemma WrapInRange(n: int)
    requires 0 <= n < MODULUS
    ensures Wrap(n) == n
  {
  }

  lemma SubOfAdd(a: uint32, offset: uint32)
    ensures Sub(Add(a, offset), a) == offset
  {
  }
}
