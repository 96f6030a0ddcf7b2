/** The Java integer semantics the modelled code relies on: the ranges of
    int and long, 32-bit wrap-around, division that truncates toward zero,
    Integer.compare / Long.compare, Long.hashCode and the one-argument
    Objects.hash that Node and NodeStatus use for hashCode. */
module JavaInt {

  /** Integer.MIN_VALUE and Integer.MAX_VALUE. */
  const INT_MIN: int := -0x8000_0000
  const INT_MAX: int := 0x7FFF_FFFF

  /** Long.MIN_VALUE and Long.MAX_VALUE. */
  const LONG_MIN: int := -0x8000_0000_0000_0000
  const LONG_MAX: int := 0x7FFF_FFFF_FFFF_FFFF

  predicate IsInt(x: int)
  {
    INT_MIN <= x <= INT_MAX
  }

  predicate IsLong(x: int)
  {
    LONG_MIN <= x <= LONG_MAX
  }

  /** The int a Java int expression evaluates to: x reduced modulo 2^32
      into the int range. */
  function Wrap32(x: int): (r: int)
    ensures IsInt(r)
    ensures (x - r) % 0x1_0000_0000 == 0
    ensures IsInt(x) ==> r == x
  {
    var m := x % 0x1_0000_0000;
    if m > INT_MAX then m - 0x1_0000_0000 else m
  }

  /** Java's int division a / b, which truncates toward zero. */
  function JavaDiv(a: int, b: int): (r: int)
    requires b > 0
    ensures a >= 0 ==> 0 <= r && r * b <= a < r * b + b
    ensures a < 0 ==> r <= 0 && r * b - b < a <= r * b
  {
    DivBounds(if a >= 0 then a else -a, b);
    if a >= 0 then a / b
    else
      NegMul((-a) / b, b);
      -((-a) / b)
  }

  /** The bounds of Euclidean division of a non-negative number. */
  lemma DivBounds(a: int, b: int)
    requires a >= 0 && b > 0
    ensures 0 <= a / b && (a / b) * b <= a < (a / b) * b + b
  {
    assert a == (a / b) * b + a % b;
  }

  lemma NegMul(q: int, b: int)
    ensures (-q) * b == -(q * b)
  {
  }

  /** Integer.compare / Long.compare: -1, 0 or 1 as x is below, equal to or
      above y. */
  function Compare(x: int, y: int): (r: int)
    ensures r == -1 || r == 0 || r == 1
    ensures r < 0 <==> x < y
    ensures r == 0 <==> x == y
    ensures r > 0 <==> x > y
  {
    if x < y then -1 else if x == y then 0 else 1
  }

  /** The 64 bits of a long, as two's complement, read as an unsigned value. */
  function Unsigned64(x: int): (r: int)
    requires IsLong(x)
    ensures 0 <= r < 0x1_0000_0000_0000_0000
    ensures 0 <= x ==> r == x
    ensures x < 0 ==> r == x + 0x1_0000_0000_0000_0000
  {
    if x < 0 then x + 0x1_0000_0000_0000_0000 else x
  }

  /** The bitwise exclusive-or of two non-negative numbers, from the lowest
      bit up. */
  function Xor(a: nat, b: nat): nat
    decreases a + b
  {
    if a == 0 && b == 0 then 0 else (a + b) % 2 + 2 * Xor(a / 2, b / 2)
  }

  /** Exclusive-or with zero changes nothing. */
  lemma {:induction false} XorZero(a: nat)
    ensures Xor(a, 0) == a
    decreases a
  {
    if a > 0 {
      XorZero(a / 2);
    }
  }

  /** A number exclusive-or itself is zero. */
  lemma {:induction false} XorSelf(a: nat)
    ensures Xor(a, a) == 0
    decreases a
  {
    if a > 0 {
      XorSelf(a / 2);
    }
  }

  /** Long.hashCode(x): the int made of the low 32 bits of x ^ (x >>> 32),
      that is, of the low half of x exclusive-or its high half. */
  function LongHashCode(x: int): (r: int)
    requires IsLong(x)
    ensures IsInt(r)
  {
    var u := Unsigned64(x);
    Wrap32(Xor(u % 0x1_0000_0000, u / 0x1_0000_0000))
  }

  /** Objects.hash(x) for one long argument: 31 * 1 + Long.hashCode(x), in
      int arithmetic. */
  function ObjectsHash(x: int): (r: int)
    requires IsLong(x)
    ensures IsInt(r)
  {
    Wrap32(31 + LongHashCode(x))
  }

  /** A non-negative long below 2^31 hashes to itself, so Objects.hash of a
      small id is 31 more than the id. */
  lemma SmallLongHash(x: int)
    requires 0 <= x <= INT_MAX
    ensures LongHashCode(x) == x
    ensures x <= INT_MAX - 31 ==> ObjectsHash(x) == 31 + x
  {
    var u := Unsigned64(x);
    assert u == x;
    assert u % 0x1_0000_0000 == x && u / 0x1_0000_0000 == 0;
    XorZero(x);
    assert LongHashCode(x) == Wrap32(x);
  }

  /** The two halves of -1 cancel: Long.hashCode(-1) is 0, and so is that of
      2^32 + 1, so Objects.hash does not tell these ids apart. */
  lemma HashCollision()
    ensures LongHashCode(-1) == 0 && LongHashCode(0x1_0000_0001) == 0
    ensures ObjectsHash(-1) == ObjectsHash(0x1_0000_0001) == 31
  {
    XorSelf(0xFFFF_FFFF);
    XorSelf(1);
  }
}
