/**
 * Linear and binary search over a vector: find, find_next and find_last
 * (first and last match of an equality predicate against a datum) and
 * search (the leftmost element comparing equal around a bsearch hit).
 *
 * The equality and comparison callbacks are pure functions here; the
 * callbacks of C may have side effects, which this model does not capture.
 */
module Search {
  import opened Sizes
  import opened Vectors
  import opened Addressing

  /**
   * The first index at or after i whose element satisfies `eqf(elmt, data)`,
   * or ABSENT when there is none: the meaning of find_next.
   */
  function NextMatch<D>(s: seq<Block>, i: nat, eqf: (Block, D) -> bool, data: D): (r: nat)
    decreases |s| - i
  {
    if i >= |s| then ABSENT
    else if eqf(s[i], data) then i
    else NextMatch(s, i + 1, eqf, data)
  }

  /**
   * The last index before i whose element satisfies `eqf(elmt, data)`, or
   * ABSENT when there is none: the meaning of find_last.
   */
  function PrevMatch<D>(s: seq<Block>, i: nat, eqf: (Block, D) -> bool, data: D): (r: nat)
    requires i <= |s|
  {
    if i == 0 then ABSENT
    else if eqf(s[i - 1], data) then i - 1
    else PrevMatch(s, i - 1, eqf, data)
  }

  /**
   * NextMatch is the first match: a result other than ABSENT is an index
   * at or after i that matches with no match before it from i on; ABSENT
   * means no index at or after i matches. ABSENT cannot be mistaken for an
   * index since no vector holds more than SIZE_MAX elements.
   */
  lemma {:induction false} NextMatchIsFirst<D>(s: seq<Block>, i: nat, eqf: (Block, D) -> bool, data: D)
    requires |s| <= SIZE_MAX
    ensures var r := NextMatch(s, i, eqf, data);
      && (r != ABSENT ==> i <= r < |s| && eqf(s[r], data) && forall k :: i <= k < r ==> !eqf(s[k], data))
      && (r == ABSENT <==> forall k :: i <= k < |s| ==> !eqf(s[k], data))
    decreases |s| - i
  {
    if i < |s| && !eqf(s[i], data) {
      NextMatchIsFirst(s, i + 1, eqf, data);
    }
  }

  /**
   * PrevMatch is the last match: a result other than ABSENT is an index
   * below i that matches with no match after it below i; ABSENT means no
   * index below i matches, in particular for i == 0.
   */
  lemma {:induction false} PrevMatchIsLast<D>(s: seq<Block>, i: nat, eqf: (Block, D) -> bool, data: D)
    requires i <= |s| <= SIZE_MAX
    ensures var r := PrevMatch(s, i, eqf, data);
      && (r != ABSENT ==> r < i && eqf(s[r], data) && forall k :: r < k < i ==> !eqf(s[k], data))
      && (r == ABSENT <==> forall k :: 0 <= k < i ==> !eqf(s[k], data))
  {
    if i > 0 && !eqf(s[i - 1], data) {
      PrevMatchIsLast(s, i - 1, eqf, data);
    }
  }

  /** Beyond the last element there is nothing to find. */
  lemma NextMatchPastEnd<D>(s: seq<Block>, i: nat, eqf: (Block, D) -> bool, data: D)
    requires |s| <= i
    ensures NextMatch(s, i, eqf, data) == ABSENT
  {
  }

  /**
   * vector_find_next_z (search.c) and mx_vector_find_next_z: a `for` loop
   * that checks the bound before each call of eqf, so any i is accepted.
   */
  method FindNext<D>(v: Vector, i: SizeT, eqf: (Block, D) -> bool, data: D, z: SizeT) returns (r: SizeT)
    requires v.Valid(z)
    ensures r == NextMatch(v.Elements(), i, eqf, data)
  {
    var j := i;
    while j < v.length
      invariant i <= j
      invariant NextMatch(v.Elements(), j, eqf, data) == NextMatch(v.Elements(), i, eqf, data)
      decreases v.length - j
    {
      if eqf(v.data[j], data) {
        return j;
      }
      j := j + 1;
    }
    return ABSENT;
  }

  /** vector_find_z (search.c) and mx_vector_find_z: find_next from index 0. */
  method Find<D>(v: Vector, eqf: (Block, D) -> bool, data: D, z: SizeT) returns (r: SizeT)
    requires v.Valid(z)
    ensures r == NextMatch(v.Elements(), 0, eqf, data)
  {
    r := FindNext(v, 0, eqf, data, z);
  }

  /**
   * vector_find_next_z (search.h): a `do`/`while` loop that calls eqf on
   * slot i before any bound check, so i must be an index of the vector.
   */
  method FindNextDoWhile<D>(v: Vector, i: SizeT, eqf: (Block, D) -> bool, data: D, z: SizeT) returns (r: SizeT)
    requires v.Valid(z) && i < v.length
    ensures r == NextMatch(v.Elements(), i, eqf, data)
  {
    var j := i;
    while true
      invariant i <= j < v.length
      invariant NextMatch(v.Elements(), j, eqf, data) == NextMatch(v.Elements(), i, eqf, data)
      decreases v.length - j
    {
      if eqf(v.data[j], data) {
        return j;
      }
      j := j + 1;
      if j >= v.length {
        break;
      }
    }
    return ABSENT;
  }

  /**
   * vector_find_z (search.h): the do-while find_next from index 0, which is
   * an index only when the vector is not empty.
   */
  method FindDoWhile<D>(v: Vector, eqf: (Block, D) -> bool, data: D, z: SizeT) returns (r: SizeT)
    requires v.Valid(z) && 0 < v.length
    ensures r == NextMatch(v.Elements(), 0, eqf, data)
  {
    r := FindNextDoWhile(v, 0, eqf, data, z);
  }

  /**
   * vector_find_last_z and mx_vector_find_last_z: `while (i-- > 0)`, so
   * the slots below i are scanned downward; i may be at most the length.
   */
  method FindLast<D>(v: Vector, i: SizeT, eqf: (Block, D) -> bool, data: D, z: SizeT) returns (r: SizeT)
    requires v.Valid(z) && i <= v.length
    ensures r == PrevMatch(v.Elements(), i, eqf, data)
  {
    var j: SizeT := i;
    while j > 0
      invariant j <= i
      invariant PrevMatch(v.Elements(), j, eqf, data) == PrevMatch(v.Elements(), i, eqf, data)
    {
      j := j - 1;
      if eqf(v.data[j], data) {
        return j;
      }
    }
    return ABSENT;
  }

  /**
   * The do-while find_next exactly as written, over the allocated slots
   * `storage` of a vector of `length` elements: slot i is tested first,
   * then the index is incremented and compared with the length.
   */
  function DoWhileFindNext<D>(storage: seq<Block>, length: nat, i: nat, eqf: (Block, D) -> bool, data: D): nat
    requires length <= |storage| && i < |storage|
    decreases |storage| - i
  {
    if eqf(storage[i], data) then i
    else if i + 1 < length then DoWhileFindNext(storage, length, i + 1, eqf, data)
    else ABSENT
  }

  /** For an index of the vector, the do-while loop finds the first match. */
  lemma {:induction false} DoWhileAgreesInBounds<D>(storage: seq<Block>, length: nat, i: nat,
                                                    eqf: (Block, D) -> bool, data: D)
    requires i < length <= |storage|
    ensures DoWhileFindNext(storage, length, i, eqf, data) == NextMatch(storage[..length], i, eqf, data)
    decreases length - i
  {
    if !eqf(storage[i], data) && i + 1 < length {
      DoWhileAgreesInBounds(storage, length, i + 1, eqf, data);
    }
  }

  /**
   * Past the last element the do-while loop still tests slot i: when the
   * stale contents of that allocated slot match, it returns i, an index
   * outside the vector, where the answer should be ABSENT.
   */
  lemma DoWhileReadsPastEnd<D>(storage: seq<Block>, length: nat, i: nat, eqf: (Block, D) -> bool, data: D)
    requires length <= i < |storage|
    requires eqf(storage[i], data)
    ensures DoWhileFindNext(storage, length, i, eqf, data) == i
    ensures NextMatch(storage[..length], i, eqf, data) == ABSENT
  {
  }

  /**
   * The concrete case: find on an empty vector with one allocated slot
   * (left over from a removed element) returns 0 when that slot matches.
   */
  lemma FindOnEmptyVector()
    ensures var stale: Block := [7];
      var equal := (b: Block, d: Block) => b == d;
      && DoWhileFindNext([stale], 0, 0, equal, stale) == 0
      && NextMatch([], 0, equal, stale) == ABSENT
  {
  }

  /**
   * The reverse iteration documented for find_last starts from i == SIZE_MAX,
   * which the find_last precondition (i at most the length) never admits for
   * a non-zero element size: `while (i-- > 0)` would first read slot
   * SIZE_MAX - 1, which lies beyond every allocated slot.
   */
  lemma FindLastFromAbsentReadsOutside(v: Vector, z: SizeT)
    requires v.Valid(z) && 0 < z
    ensures v.length < ABSENT
    ensures v.data.Length <= ABSENT - HEADER_SIZE < ABSENT - 1
  {
    assert v.volume * 1 <= v.volume * z;
  }

  /**
   * find_last with its start clamped to the length: any i is accepted, and
   * from i == SIZE_MAX it yields the last match in the whole vector.
   */
  method FindLastClamped<D>(v: Vector, i: SizeT, eqf: (Block, D) -> bool, data: D, z: SizeT) returns (r: SizeT)
    requires v.Valid(z)
    ensures r == PrevMatch(v.Elements(), if i <= v.length then i else v.length, eqf, data)
    ensures i == ABSENT && r != ABSENT ==>
      r < v.length && eqf(v.Elements()[r], data) && forall k :: r < k < v.length ==> !eqf(v.Elements()[k], data)
    ensures i == ABSENT && r == ABSENT ==> forall k :: 0 <= k < v.length ==> !eqf(v.Elements()[k], data)
  {
    var start := if i <= v.length then i else v.length;
    r := FindLast(v, start, eqf, data, z);
    PrevMatchIsLast(v.Elements(), start, eqf, data);
  }

  /**
   * The sign of every element's comparison with `elmt` is non-decreasing
   * along the sequence: the order bsearch needs. Elements equal to `elmt`
   * then form one contiguous run.
   */
  ghost predicate Partitioned(s: seq<Block>, elmt: Block, cmpf: (Block, Block) -> int)
  {
    forall j, k :: 0 <= j < k < |s| ==> Sign(cmpf(s[j], elmt)) <= Sign(cmpf(s[k], elmt))
  }

  function Sign(x: int): int
  {
    if x < 0 then -1 else if x == 0 then 0 else 1
  }

  /**
   * mx_vector_search_z: the address bsearch returned is given as `hit`,
   * None for NULL, with `base` the address of slot 0. bsearch only promises
   * an element comparing equal (`cmpf(elmt, slot) == 0`), or none at all
   * when it returns NULL. The hit is turned into a slot with index; from
   * there the scan walks down while the previous element compares equal
   * (`cmpf(slot, elmt) == 0`) and returns the first index of that run.
   */
  method SearchLeftmost(v: Vector, elmt: Block, cmpf: (Block, Block) -> int, base: nat, hit: Option<nat>, z: SizeT)
    returns (r: SizeT)
    requires v.Valid(z)
    requires hit.Some? ==> 0 < z && base <= hit.value && Index(base, hit.value, z) < v.length
    requires hit.Some? ==> cmpf(elmt, v.data[Index(base, hit.value, z)]) == 0
    requires hit.None? ==> forall k :: 0 <= k < v.length ==> cmpf(elmt, v.data[k]) != 0
    ensures hit.None? ==> r == ABSENT
    ensures hit.Some? ==> r <= Index(base, hit.value, z)
    ensures hit.Some? ==> forall k :: r <= k < Index(base, hit.value, z) ==> cmpf(v.Elements()[k], elmt) == 0
    ensures hit.Some? ==> r == 0 || cmpf(v.Elements()[r - 1], elmt) != 0
    ensures (hit.Some? && Partitioned(v.Elements(), elmt, cmpf) &&
             cmpf(v.Elements()[Index(base, hit.value, z)], elmt) == 0) ==>
      forall k :: 0 <= k < r ==> cmpf(v.Elements()[k], elmt) != 0
  {
    if hit.None? {
      return ABSENT;
    }
    var j := Index(base, hit.value, z);
    assert j < v.data.Length;
    var i: SizeT := j;
    while i > 0 && cmpf(v.data[i - 1], elmt) == 0
      invariant i <= j
      invariant forall k :: i <= k < j ==> cmpf(v.data[k], elmt) == 0
    {
      i := i - 1;
    }
    r := i;
    ghost var s := v.Elements();
    if Partitioned(s, elmt, cmpf) && cmpf(s[j], elmt) == 0 && r > 0 {
      forall k | 0 <= k < r
        ensures cmpf(s[k], elmt) != 0
      {
        assert Sign(cmpf(s[r], elmt)) == 0 by {
          if r < j {
            assert cmpf(s[r], elmt) == 0;
          }
        }
        assert Sign(cmpf(s[r - 1], elmt)) <= 0;
        assert Sign(cmpf(s[k], elmt)) <= Sign(cmpf(s[r - 1], elmt)) by {
          if k < r - 1 {
            assert Sign(cmpf(s[k], elmt)) <= Sign(cmpf(s[r - 1], elmt));
          }
        }
      }
    }
  }
}
