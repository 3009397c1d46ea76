/**
 * Element-wise equality of two vectors: mx_vector_eq_z / mx_vector_ne_z
 * (one element size, an optional equality callback, byte comparison
 * otherwise) and vector_eq_with_z / vector_eq_z (an element size per
 * vector and a callback that receives a context pointer).
 */
module Comparison {
  import opened Sizes
  import opened Vectors

  /**
   * Two element sequences are equal under `eq` with context `data`: the
   * same length and `eq` holding at every index.
   */
  ghost predicate AllPairs<D>(a: seq<Block>, b: seq<Block>, eq: (Block, Block, D) -> bool, data: D)
  {
    |a| == |b| && forall k :: 0 <= k < |a| ==> eq(a[k], b[k], data)
  }

  /**
   * vector_eq_with_z: false at once for different lengths; otherwise `eq`
   * is called on each pair of elements in order until one returns false.
   * `calls` counts the calls of `eq`: the comparison stops at the first
   * pair that is not equal.
   */
  method EqWith<D>(va: Vector, vb: Vector, eq: (Block, Block, D) -> bool, data: D, za: SizeT, zb: SizeT)
    returns (r: bool, ghost calls: nat)
    requires va.Valid(za) && vb.Valid(zb)
    ensures r == AllPairs(va.Elements(), vb.Elements(), eq, data)
    ensures va.length != vb.length ==> calls == 0
    ensures r ==> calls == va.length
    ensures !r && va.length == vb.length ==>
      && 0 < calls <= va.length
      && !eq(va.Elements()[calls - 1], vb.Elements()[calls - 1], data)
      && forall k :: 0 <= k < calls - 1 ==> eq(va.Elements()[k], vb.Elements()[k], data)
  {
    calls := 0;
    if va.length != vb.length {
      return false, calls;
    }
    for i := 0 to va.length
      invariant calls == i
      invariant forall k :: 0 <= k < i ==> eq(va.data[k], vb.data[k], data)
    {
      calls := calls + 1;
      if !eq(va.data[i], vb.data[i], data) {
        return false, calls;
      }
    }
    return true, calls;
  }

  /** __vector_data_as_eq: call the two-argument equality passed as the context. */
  function DataAsEq(a: Block, b: Block, data: (Block, Block) -> bool): bool
  {
    data(a, b)
  }

  /** Through the adapter, equality with context is plain element-wise equality. */
  lemma DataAsEqAllPairs(a: seq<Block>, b: seq<Block>, eq: (Block, Block) -> bool)
    ensures AllPairs(a, b, DataAsEq, eq) <==> |a| == |b| && forall k :: 0 <= k < |a| ==> eq(a[k], b[k])
  {
  }

  /**
   * vector_eq_z: vector_eq_with_z with the adapter that passes the
   * two-argument `eq` as the context.
   */
  method Eq(va: Vector, vb: Vector, eq: (Block, Block) -> bool, za: SizeT, zb: SizeT) returns (r: bool)
    requires va.Valid(za) && vb.Valid(zb)
    ensures r <==> (|va.Elements()| == |vb.Elements()| &&
                    forall k :: 0 <= k < |va.Elements()| ==> eq(va.Elements()[k], vb.Elements()[k]))
  {
    ghost var calls;
    r, calls := EqWith(va, vb, DataAsEq, eq, za, zb);
    DataAsEqAllPairs(va.Elements(), vb.Elements(), eq);
  }

  /**
   * The element test of mx_vector_eq_z: the callback when one is given,
   * otherwise memcmp over the z bytes, which finds two elements equal
   * exactly when all their bytes agree.
   */
  function ElementsEqual(eqf: Option<(Block, Block) -> bool>, x: Block, y: Block): bool
  {
    if eqf.None? then x == y else eqf.value(x, y)
  }

  /** Two element sequences are equal under mx_vector_eq_z's element test. */
  ghost predicate SameElements(a: seq<Block>, b: seq<Block>, eqf: Option<(Block, Block) -> bool>)
  {
    |a| == |b| && forall k :: 0 <= k < |a| ==> ElementsEqual(eqf, a[k], b[k])
  }

  /**
   * Without a callback, every vector equals itself, and two vectors are
   * equal exactly when they hold the same bytes.
   */
  lemma {:induction false} MemcmpEquality(a: seq<Block>, b: seq<Block>)
    ensures SameElements(a, a, None)
    ensures SameElements(a, b, None) <==> a == b
  {
    if SameElements(a, b, None) {
      assert forall k :: 0 <= k < |a| ==> a[k] == b[k];
    }
  }

  /**
   * mx_vector_eq_z: false for different lengths, otherwise the element
   * test on each index in order, stopping at the first difference.
   */
  method MxEq(a: Vector, b: Vector, eqf: Option<(Block, Block) -> bool>, z: SizeT) returns (r: bool)
    requires a.Valid(z) && b.Valid(z)
    ensures r == SameElements(a.Elements(), b.Elements(), eqf)
  {
    if a.length != b.length {
      return false;
    }
    for i := 0 to a.length
      invariant forall k :: 0 <= k < i ==> ElementsEqual(eqf, a.data[k], b.data[k])
    {
      var differ := if eqf.None? then a.data[i] != b.data[i] else !eqf.value(a.data[i], b.data[i]);
      if differ {
        return false;
      }
    }
    return true;
  }

  /** mx_vector_ne_z: the negation of mx_vector_eq_z. */
  method MxNe(a: Vector, b: Vector, eqf: Option<(Block, Block) -> bool>, z: SizeT) returns (r: bool)
    requires a.Valid(z) && b.Valid(z)
    ensures r == !SameElements(a.Elements(), b.Elements(), eqf)
  {
    var equal := MxEq(a, b, eqf, z);
    r := !equal;
  }
}
