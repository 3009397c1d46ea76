/**
 * Pointer arithmetic of the vector: `at` (the address of slot i), `index`
 * (the slot holding an address) and `tail` (the address of the last slot).
 *
 * Addresses are byte offsets; `base` is the address of slot 0, which is the
 * handle itself. No wrap-around occurs because every address computed here
 * lies inside (or one past) an allocation of at most SIZE_MAX bytes.
 */
module Addressing {

  /** mx_vector_at / vector_at: the address `base + i * z` of slot i. */
  function At(base: nat, i: nat, z: nat): (addr: nat)
  {
    base + i * z
  }

  /**
   * mx_vector_index / vector_index: the slot containing the address `addr`,
   * `(addr - base) / z`. The division by zero for z == 0 is undefined in C.
   */
  function Index(base: nat, addr: nat, z: nat): (i: nat)
    requires base <= addr && 0 < z
  {
    (addr - base) / z
  }

  /** mx_vector_tail_z: the address of the last slot; undefined for an empty vector. */
  function Tail(base: nat, length: nat, z: nat): (addr: nat)
    requires 0 < length
    ensures addr + z == base + length * z
  {
    At(base, length - 1, z)
  }

  /** A quotient is pinned by bracketing: q * z <= x < q * z + z means x / z == q. */
  lemma DivBracket(x: nat, z: nat, q: nat)
    requires 0 < z && q * z <= x < q * z + z
    ensures x / z == q
  {
    var d := x / z;
    assert d * z <= x < d * z + z;
    assert (d + 1) * z == d * z + z;
    assert (q + 1) * z == q * z + z;
    MulMonotone(d + 1, q, z);
    MulMonotone(q + 1, d, z);
  }

  /** Multiplication by a natural number is monotone. */
  lemma MulMonotone(a: nat, b: nat, z: nat)
    ensures a <= b ==> a * z <= b * z
  {
    if a <= b {
      assert b * z == a * z + (b - a) * z;
    }
  }

  /** index(at(i)) == i for every element size other than zero. */
  lemma IndexOfAt(base: nat, i: nat, z: nat)
    requires 0 < z
    ensures Index(base, At(base, i, z), z) == i
  {
    DivBracket(i * z, z, i);
  }

  /** at(index(e)) == e for every address e at the start of a slot. */
  lemma AtOfIndex(base: nat, addr: nat, z: nat)
    requires base <= addr && 0 < z
    requires (addr - base) % z == 0
    ensures At(base, Index(base, addr, z), z) == addr
  {
    var q := (addr - base) / z;
    assert addr - base == q * z + (addr - base) % z;
  }

  /**
   * An address inside slot i (at an offset within the element) still yields
   * index i: the division floors.
   */
  lemma IndexOfInterior(base: nat, i: nat, offset: nat, z: nat)
    requires offset < z
    ensures Index(base, At(base, i, z) + offset, z) == i
  {
    DivBracket(i * z + offset, z, i);
  }

  /** Slot i of a vector of `length` elements lies within its `length * z` data bytes. */
  lemma AtInBounds(base: nat, i: nat, length: nat, z: nat)
    requires i < length
    ensures base <= At(base, i, z)
    ensures At(base, i, z) + z <= base + length * z
  {
    assert (i + 1) * z <= length * z by {
      assert length * z == (i + 1) * z + (length - i - 1) * z;
    }
  }
}
