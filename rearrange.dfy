/**
 * Sequence-level meaning of the vector's structural operations: what inject,
 * excise, swap and move do to the sequence of elements, independent of the
 * storage, and the laws that relate them.
 */
module Rearrange {

  /** The sequence after inserting `gap` at index `i` (inject). */
  function Injected<T>(s: seq<T>, i: nat, gap: seq<T>): seq<T>
    requires i <= |s|
  {
    s[..i] + gap + s[i..]
  }

  /** The sequence after removing the `n` elements at index `i` (excise). */
  function Excised<T>(s: seq<T>, i: nat, n: nat): seq<T>
    requires i + n <= |s|
  {
    s[..i] + s[i + n..]
  }

  /** Elements before the gap stay, the gap holds `gap`, the rest moves up by |gap|. */
  lemma InjectedAt<T>(s: seq<T>, i: nat, gap: seq<T>, k: nat)
    requires i <= |s| && k < |s| + |gap|
    ensures |Injected(s, i, gap)| == |s| + |gap|
    ensures k < i ==> Injected(s, i, gap)[k] == s[k]
    ensures i <= k < i + |gap| ==> Injected(s, i, gap)[k] == gap[k - i]
    ensures i + |gap| <= k ==> Injected(s, i, gap)[k] == s[k - |gap|]
  {
  }

  /** Elements before `i` stay, the rest moves down by n. */
  lemma ExcisedAt<T>(s: seq<T>, i: nat, n: nat, k: nat)
    requires i + n <= |s| && k < |s| - n
    ensures |Excised(s, i, n)| == |s| - n
    ensures k < i ==> Excised(s, i, n)[k] == s[k]
    ensures i <= k ==> Excised(s, i, n)[k] == s[k + n]
  {
  }

  /** Removing what was just inserted gives back the original (insert/remove inverse). */
  lemma ExciseUndoesInject<T>(s: seq<T>, i: nat, gap: seq<T>)
    requires i <= |s|
    ensures Excised(Injected(s, i, gap), i, |gap|) == s
  {
    var t := Injected(s, i, gap);
    assert t[..i] == s[..i];
    assert t[i + |gap|..] == s[i..];
  }

  /** Putting back what was removed gives back the original. */
  lemma InjectUndoesExcise<T>(s: seq<T>, i: nat, n: nat)
    requires i + n <= |s|
    ensures Injected(Excised(s, i, n), i, s[i..i + n]) == s
  {
    var e := Excised(s, i, n);
    assert e[..i] == s[..i];
    assert e[i..] == s[i + n..];
    assert s == s[..i] + s[i..i + n] + s[i + n..];
  }

  /** Excising nothing changes nothing; excising everything from 0 empties. */
  lemma ExciseEdges<T>(s: seq<T>, i: nat)
    requires i <= |s|
    ensures Excised(s, i, 0) == s
    ensures Excised(s, 0, |s|) == []
  {
    assert s[..i] + s[i..] == s;
  }

  /** Inject and excise preserve the multiset of elements, up to what enters or leaves. */
  lemma InjectExciseMultiset<T>(s: seq<T>, i: nat, gap: seq<T>, n: nat)
    requires i <= |s|
    requires i + n <= |s|
    ensures multiset(Injected(s, i, gap)) == multiset(s) + multiset(gap)
    ensures multiset(Excised(s, i, n)) + multiset(s[i..i + n]) == multiset(s)
  {
    assert s == s[..i] + s[i..];
    assert s == s[..i] + s[i..i + n] + s[i + n..];
  }

  /** The sequence with the elements at `i` and `j` exchanged (swap). */
  function Swapped<T>(s: seq<T>, i: nat, j: nat): seq<T>
    requires i < |s| && j < |s|
  {
    s[i := s[j]][j := s[i]]
  }

  /** Swapping is its own inverse and swapping an index with itself is the identity. */
  lemma SwapInvolution<T>(s: seq<T>, i: nat, j: nat)
    requires i < |s| && j < |s|
    ensures Swapped(Swapped(s, i, j), i, j) == s
    ensures Swapped(s, i, i) == s
  {
    var t := Swapped(s, i, j);
    assert t[i := t[j]][j := t[i]] == s;
  }

  /** A swap permutes the elements. */
  lemma SwapPermutes<T>(s: seq<T>, i: nat, j: nat)
    requires i < |s| && j < |s|
    ensures multiset(Swapped(s, i, j)) == multiset(s)
  {
    if i != j {
      var u := s[i := s[j]];
      assert multiset(u) == multiset(s) - multiset{s[i]} + multiset{s[j]};
      assert u[j] == s[j];
      assert multiset(u[j := s[i]]) == multiset(u) - multiset{s[j]} + multiset{s[i]};
    }
  }

  /**
   * Where the element found at index `k` after move(target, source) came from:
   * the moved element lands at `target` and the elements between the two
   * indices shift by one toward `source`'s old place.
   */
  function MovedFrom(target: nat, source: nat, k: nat): nat
  {
    if k == target then source
    else if target < source && target < k <= source then k - 1
    else if source < target && source <= k < target then k + 1
    else k
  }

  /** The sequence after moving the element at `source` to index `target` (move). */
  function Moved<T>(s: seq<T>, target: nat, source: nat): (r: seq<T>)
    requires target < |s| && source < |s|
    ensures |r| == |s|
  {
    seq(|s|, k requires 0 <= k < |s| => s[MovedFrom(target, source, k)])
  }

  /**
   * Moving is removing the element at `source` and reinserting it at `target`;
   * so the other elements keep their relative order and a move permutes.
   */
  lemma {:induction false} MovedIsReinsertion<T>(s: seq<T>, target: nat, source: nat)
    requires target < |s| && source < |s|
    ensures Moved(s, target, source) == Injected(Excised(s, source, 1), target, [s[source]])
    ensures Excised(Moved(s, target, source), target, 1) == Excised(s, source, 1)
    ensures multiset(Moved(s, target, source)) == multiset(s)
  {
    var m := Moved(s, target, source);
    var e := Excised(s, source, 1);
    var r := Injected(e, target, [s[source]]);
    assert |r| == |s| by { InjectedAt(e, target, [s[source]], 0); }
    forall k | 0 <= k < |s|
      ensures m[k] == r[k]
    {
      ReinsertionAt(s, target, source, k);
    }
    assert m == r;
    ExciseUndoesInject(e, target, [s[source]]);
    ReinsertionMultiset(s, target, source);
  }

  /** MovedIsReinsertion at one index. */
  lemma ReinsertionAt<T>(s: seq<T>, target: nat, source: nat, k: nat)
    requires target < |s| && source < |s| && k < |s|
    ensures Moved(s, target, source)[k] == Injected(Excised(s, source, 1), target, [s[source]])[k]
  {
    var e := Excised(s, source, 1);
    InjectedAt(e, target, [s[source]], k);
    if k < target {
      ExcisedAt(s, source, 1, k);
    } else if k > target {
      ExcisedAt(s, source, 1, k - 1);
    }
  }

  /** Reinserting the removed element restores the multiset. */
  lemma ReinsertionMultiset<T>(s: seq<T>, target: nat, source: nat)
    requires target < |s| && source < |s|
    ensures multiset(Injected(Excised(s, source, 1), target, [s[source]])) == multiset(s)
  {
    var e := Excised(s, source, 1);
    InjectExciseMultiset(e, target, [s[source]], 0);
    InjectExciseMultiset(s, source, [], 1);
    assert s[source..source + 1] == [s[source]];
  }

  /** A move to the same index is the identity; indices outside the moved range keep their element. */
  lemma MovedFrame<T>(s: seq<T>, target: nat, source: nat, k: nat)
    requires target < |s| && source < |s| && k < |s|
    ensures Moved(s, source, source) == s
    ensures Moved(s, target, source)[target] == s[source]
    ensures (k < target && k < source) || (k > target && k > source) ==> Moved(s, target, source)[k] == s[k]
  {
  }

  /** One step of move's downward loop: swapping the moved element one place down moves it there. */
  lemma MoveStepDown<T>(s: seq<T>, at: nat, source: nat)
    requires 0 < at <= source < |s|
    ensures Swapped(Moved(s, at, source), at - 1, at) == Moved(s, at - 1, source)
  {
  }

  /** One step of move's upward loop: swapping the moved element one place up moves it there. */
  lemma MoveStepUp<T>(s: seq<T>, at: nat, source: nat)
    requires source <= at && at + 1 < |s|
    ensures Swapped(Moved(s, at, source), at, at + 1) == Moved(s, at + 1, source)
  {
  }

  /**
   * The documented example: moving the element at index 2 of
   * { 2, 4, 6, 8, 10, 12 } to index 4 yields { 2, 4, 8, 10, 6, 12 }; the
   * order { 2, 4, 10, 6, 8, 12 } printed beside it is the move from 4 to 2.
   */
  lemma MoveDocExample()
    ensures Moved([2, 4, 6, 8, 10, 12], 4, 2) == [2, 4, 8, 10, 6, 12]
    ensures Moved([2, 4, 6, 8, 10, 12], 2, 4) == [2, 4, 10, 6, 8, 12]
  {
    var s := [2, 4, 6, 8, 10, 12];
    var up, down := Moved(s, 4, 2), Moved(s, 2, 4);
    assert up[2] == 8 && up[3] == 10 && up[4] == 6;
    assert down[2] == 10 && down[3] == 6 && down[4] == 8;
  }

  /** Moving inside a prefix commutes with taking that prefix. */
  lemma MovedPrefix<T>(s: seq<T>, target: nat, source: nat, n: nat)
    requires target < n && source < n && n <= |s|
    ensures Moved(s, target, source)[..n] == Moved(s[..n], target, source)
    ensures Moved(s, target, source)[n..] == s[n..]
  {
  }
}
