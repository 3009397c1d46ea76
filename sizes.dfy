/**
 * size_t arithmetic of the vector: the checked allocation size, the growth
 * target of ensure and the shrink trigger and target of excise.
 *
 * Integers are unbounded here. Where the C code relies on size_t wrap-around
 * the value is defined by cases, and a `...Wraps` lemma proves it equal to the
 * expression reduced with `Wrap` step by step.
 */
module Sizes {

  /** SIZE_MAX on a 64-bit target. */
  const SIZE_MAX: nat := 0xFFFF_FFFF_FFFF_FFFF

  /** A value of C's size_t. */
  type SizeT = x: nat | x <= SIZE_MAX

  /** MX_ABSENT: the "no index" sentinel returned by the searches. */
  const ABSENT: nat := SIZE_MAX

  /**
   * sizeof(header_t): two size_t fields followed by a flexible array member
   * aligned to the largest fundamental alignment (16 bytes on x86-64).
   */
  const HEADER_SIZE: nat := 16

  /** Reduce an integer into size_t, as C unsigned arithmetic does. */
  function Wrap(x: int): (r: nat)
    ensures r <= SIZE_MAX
    ensures 0 <= x <= SIZE_MAX ==> r == x
  {
    x % (SIZE_MAX + 1)
  }

  /** The pair (overflowed, wrapped result) of __builtin_mul_overflow. */
  function MulOverflow(a: nat, b: nat): (bool, nat)
  {
    (a * b > SIZE_MAX, Wrap(a * b))
  }

  /**
   * The pair (overflowed, wrapped result) of __builtin_add_overflow on two
   * size_t values; the sum exceeds SIZE_MAX by less than 2^64, so wrapping
   * subtracts 2^64 once.
   */
  function AddOverflow(a: SizeT, b: SizeT): (bool, nat)
  {
    if a + b > SIZE_MAX then (true, a + b - (SIZE_MAX + 1)) else (false, a + b)
  }

  /** AddOverflow's result is the sum reduced into size_t. */
  lemma AddOverflowWraps(a: SizeT, b: SizeT)
    ensures AddOverflow(a, b).1 == Wrap(a + b)
    ensures AddOverflow(a, b).0 <==> a + b != Wrap(a + b)
  {
  }

  /**
   * The byte size `count * z + sizeof(header_t)` of an allocation holding
   * `count` elements, computed the way resize does it: a checked multiply and
   * then a checked add on the wrapped product. None when either step overflows
   * (the caller then fails with ENOMEM).
   */
  function CheckedSize(count: nat, z: nat): Option<nat>
    requires count <= SIZE_MAX && z <= SIZE_MAX
  {
    var (mulOver, product) := MulOverflow(count, z);
    if mulOver then None
    else
      var (addOver, size) := AddOverflow(product, HEADER_SIZE);
      if addOver then None else Some(size)
  }

  /**
   * The two-step check on wrapped values is exact: it succeeds precisely when
   * the mathematical size fits in size_t, and then yields that size.
   */
  lemma CheckedSizeExact(count: nat, z: nat)
    requires count <= SIZE_MAX && z <= SIZE_MAX
    ensures CheckedSize(count, z).Some? <==> count * z + HEADER_SIZE <= SIZE_MAX
    ensures CheckedSize(count, z).Some? ==> CheckedSize(count, z).value == count * z + HEADER_SIZE
  {
    if count * z <= SIZE_MAX {
      assert Wrap(count * z) == count * z;
    }
  }

  /** Whether an allocation of `count` elements of `z` bytes has a representable size. */
  predicate Fits(count: nat, z: nat)
  {
    count * z + HEADER_SIZE <= SIZE_MAX
  }

  /**
   * The size_t value ensure computes as its headroom target:
   * `length / 5 * 8 + ((length % 5) * 8 + 3) / 5`. Only the product can
   * wrap; the sum then exceeds SIZE_MAX by less than 2^64, so the wrapped
   * value is the exact one less 2^64 (see GrowthTargetWraps).
   */
  function GrowthTarget(length: SizeT): nat
  {
    var exact := length / 5 * 8 + ((length % 5) * 8 + 3) / 5;
    if exact <= SIZE_MAX then exact else exact - (SIZE_MAX + 1)
  }

  /** GrowthTarget is the C expression evaluated in size_t, wrapping at each step. */
  lemma {:induction false} GrowthTargetWraps(length: SizeT)
    ensures GrowthTarget(length) == Wrap(Wrap(length / 5 * 8) + ((length % 5) * 8 + 3) / 5)
  {
    var a, c := length / 5 * 8, ((length % 5) * 8 + 3) / 5;
    assert a <= 2 * SIZE_MAX && c <= 7;
    if a <= SIZE_MAX {
      assert Wrap(a) == a;
      if a + c > SIZE_MAX {
        assert Wrap(a + c) == a + c - (SIZE_MAX + 1);
      }
    } else {
      assert Wrap(a) == a - (SIZE_MAX + 1);
      assert Wrap(Wrap(a) + c) == a + c - (SIZE_MAX + 1);
    }
  }

  /**
   * The split formula computes floor((8 * length + 3) / 5) exactly whenever
   * that value fits in size_t, and the `volume > length` test that guards the
   * headroom attempt holds exactly when length >= 1 and that value fits. So a
   * wrapped (overflowed) target is never mistaken for headroom.
   */
  lemma {:induction false} GrowthTargetWrapCheck(length: SizeT)
    ensures GrowthTarget(length) > length <==> 1 <= length && (8 * length + 3) / 5 <= SIZE_MAX
    ensures GrowthTarget(length) > length ==> GrowthTarget(length) == (8 * length + 3) / 5
  {
    var q, r := length / 5, length % 5;
    var c := (r * 8 + 3) / 5;
    assert length == 5 * q + r;
    assert 8 * length + 3 == 5 * (8 * q) + (8 * r + 3);
    assert (8 * length + 3) / 5 == 8 * q + c;
    assert c <= 7;
    var exact := 8 * q + c;
    if exact > SIZE_MAX {
      assert GrowthTarget(length) == exact - (SIZE_MAX + 1);
      assert 5 * exact <= 8 * length + 3;
    }
  }

  /**
   * Whenever ensure's target is attempted it leaves headroom: it is at least
   * the requested length and roughly 1.6 times it.
   */
  lemma GrowthTargetHeadroom(length: SizeT)
    requires GrowthTarget(length) > length
    ensures 5 * GrowthTarget(length) <= 8 * length + 3
    ensures 8 * length <= 5 * GrowthTarget(length) + 5
  {
    GrowthTargetWrapCheck(length);
  }

  /**
   * excise's shrink trigger `(volume - 1) / 2` in size_t. For an empty
   * allocation (volume 0) the subtraction wraps to SIZE_MAX.
   */
  function ShrinkThreshold(volume: SizeT): nat
  {
    (if volume == 0 then SIZE_MAX else volume - 1) / 2
  }

  /** ShrinkThreshold is the C expression evaluated in size_t. */
  lemma ShrinkThresholdWraps(volume: SizeT)
    ensures ShrinkThreshold(volume) == Wrap(volume - 1) / 2
  {
  }

  /** excise's reduced volume `length / 5 * 6 + ((length % 5) * 6 + 4) / 5`. */
  function ShrinkTarget(length: nat): nat
  {
    length / 5 * 6 + ((length % 5) * 6 + 4) / 5
  }

  /** The split formula is ceil(6 * length / 5), so it never drops below the length. */
  lemma {:induction false} ShrinkTargetExact(length: nat)
    ensures ShrinkTarget(length) == (6 * length + 4) / 5
    ensures length <= ShrinkTarget(length)
  {
    var q, r := length / 5, length % 5;
    assert length == 5 * q + r;
    assert 6 * length + 4 == 5 * (6 * q) + (6 * r + 4);
  }

  /**
   * When the shrink trigger fires, the shrink target fits in size_t without
   * wrapping, holds the new length, and never exceeds the current volume;
   * for a non-empty allocation it is strictly smaller.
   */
  lemma ShrinkTargetBounds(length: nat, volume: SizeT)
    requires length <= volume
    requires length <= ShrinkThreshold(volume)
    ensures length <= ShrinkTarget(length) <= volume
    ensures 0 < volume ==> ShrinkTarget(length) < volume
    ensures length / 5 * 6 + ((length % 5) * 6 + 4) / 5 <= SIZE_MAX
  {
    ShrinkTargetExact(length);
    if 0 < volume {
      assert 2 * length <= volume - 1;
    }
  }

  /** The result of a fallible computation. */
  datatype Option<T> = None | Some(value: T)
}
