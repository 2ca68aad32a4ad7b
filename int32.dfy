/**
 * The integer conversions and bitwise operators of ECMAScript that the password
 * checksum relies on, over unbounded integers.
 */
module Int32 {

  const TwoTo31: int := 0x8000_0000
  const TwoTo32: int := 0x1_0000_0000

  predicate InInt32Range(x: int) {
    -TwoTo31 <= x < TwoTo31
  }

  /** `x` and `y` stand for the same 32-bit pattern. */
  predicate Congruent(x: int, y: int) {
    (x - y) % TwoTo32 == 0
  }

  /** ToUint32 (ECMA-262, section 7.1.7): the integer modulo 2^32. */
  function ToUint32(x: int): (r: int)
    ensures 0 <= r < TwoTo32
    ensures Congruent(x, r)
  {
    x % TwoTo32
  }

  /**
   * ToInt32 (ECMA-262, section 7.1.6): the unique integer in [-2^31, 2^31) that is
   * congruent to `x` modulo 2^32.
   */
  function ToInt32(x: int): (r: int)
    ensures InInt32Range(r)
    ensures Congruent(x, r)
  {
    var m := ToUint32(x);
    if m >= TwoTo31 then m - TwoTo32 else m
  }

  /** Integers that stand for the same 32-bit pattern convert to the same Int32. */
  lemma ToInt32OfCongruent(x: int, y: int)
    requires Congruent(x, y)
    ensures ToInt32(x) == ToInt32(y)
  {
    var k := (x - y) / TwoTo32;
    assert x == y + k * TwoTo32;
    ModOfShift(y, k);
  }

  lemma ModOfShift(y: int, k: int)
    ensures (y + k * TwoTo32) % TwoTo32 == y % TwoTo32
  {
    var q, r := y / TwoTo32, y % TwoTo32;
    assert y + k * TwoTo32 == (q + k) * TwoTo32 + r;
  }

  /** ToInt32 is the identity on the Int32 range. */
  lemma ToInt32OfInt32(x: int)
    requires InInt32Range(x)
    ensures ToInt32(x) == x
  {
    if x < 0 {
      assert x + TwoTo32 == x + 1 * TwoTo32;
      ModOfShift(x, 1);
      assert (x + TwoTo32) % TwoTo32 == x + TwoTo32;
    }
  }

  /** Congruence is kept by adding the same integer and by scaling. */
  lemma CongruentStep(x: int, y: int, a: int, b: int)
    requires Congruent(x, y)
    ensures Congruent(a * x + b, a * y + b)
  {
    var k := (x - y) / TwoTo32;
    assert x - y == k * TwoTo32;
    assert (a * x + b) - (a * y + b) == a * (x - y);
    assert a * (x - y) == (a * k) * TwoTo32;
    ModOfShift(0, a * k);
  }

  /** 2 to the power `n`. */
  function Pow2(n: nat): (r: nat)
    ensures r >= 1
  {
    if n == 0 then 1 else 2 * Pow2(n - 1)
  }

  /**
   * The `<<` operator (ECMA-262, section 6.1.6.1.9, Number::leftShift): the left
   * operand converted by ToInt32, shifted by the right operand modulo 32, the bits
   * shifted past bit 31 dropped and the result read back as a signed 32-bit integer.
   */
  function LeftShift(x: int, count: int): (r: int)
    ensures InInt32Range(r)
  {
    ToInt32(ToInt32(x) * Pow2(ToUint32(count) % 32))
  }

  /**
   * The `&` operator (ECMA-262, section 6.1.6.1.17, Number::bitwiseAND): both
   * operands taken as 32-bit patterns, combined bit by bit, the result read back as
   * a signed 32-bit integer.
   */
  function BitwiseAnd(x: int, y: int): (r: int)
    ensures InInt32Range(r)
  {
    ToInt32(AndBits(ToUint32(x), ToUint32(y)))
  }

  /** The bitwise AND of two non-negative integers, least significant bit first. */
  function AndBits(a: nat, b: nat): (r: nat)
    ensures r <= a && r <= b
    decreases a
  {
    if a == 0 || b == 0 then 0
    else 2 * AndBits(a / 2, b / 2) + (if a % 2 == 1 && b % 2 == 1 then 1 else 0)
  }

  /** `x << 5` is `32 * x` wrapped to 32 bits. */
  lemma LeftShiftFive(x: int)
    ensures Congruent(LeftShift(x, 5), 32 * x)
  {
    assert ToUint32(5) % 32 == 5;
    assert Pow2(5) == 32;
    var a := ToInt32(x);
    CongruentStep(a, x, 32, 0);
    assert Congruent(32 * a, 32 * x);
    assert Congruent(32 * a, LeftShift(x, 5));
    CongruentTransitive(LeftShift(x, 5), 32 * a, 32 * x);
  }

  lemma CongruentTransitive(x: int, y: int, z: int)
    requires Congruent(y, x) && Congruent(y, z)
    ensures Congruent(x, z)
  {
    var i, j := (y - x) / TwoTo32, (y - z) / TwoTo32;
    assert y - x == i * TwoTo32;
    assert y - z == j * TwoTo32;
    assert x - z == (j - i) * TwoTo32;
    ModOfShift(0, j - i);
  }

  /** `x & x` is ToInt32(x): the idiom the source uses to force a value to 32 bits. */
  lemma BitwiseAndSelf(x: int)
    ensures BitwiseAnd(x, x) == ToInt32(x)
  {
    var u := ToUint32(x);
    AndBitsSelf(u);
    CongruentSymmetric(x, u);
    ToInt32OfCongruent(u, x);
  }

  /** Every bit pattern ANDed with itself is unchanged. */
  lemma {:induction false} AndBitsSelf(a: nat)
    ensures AndBits(a, a) == a
  {
    if a > 0 {
      AndBitsSelf(a / 2);
    }
  }

  lemma CongruentSymmetric(x: int, y: int)
    requires Congruent(x, y)
    ensures Congruent(y, x)
  {
    var k := (x - y) / TwoTo32;
    assert x - y == k * TwoTo32;
    assert y - x == (-k) * TwoTo32;
    ModOfShift(0, -k);
  }
}
