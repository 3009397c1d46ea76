/**
 * The type-erased dynamic array: a header holding `volume` (the capacity) and
 * `length`, followed by `volume` slots of `z` bytes each.
 *
 * The element size `z` is passed to every operation, as in the C interface.
 * The handle that C returns from every reallocating operation is the
 * `Vector` object itself here; a relocation by realloc is a fresh `data`
 * array, and a NULL return is a `Status` other than `Ok`.
 */
module Vectors {
  import opened Sizes
  import opened Allocation
  import opened Rearrange

  type Byte = bv8

  /** The z bytes of one element. */
  type Block = seq<Byte>

  /** The address of one z-byte location: slot `index` of the array `base`. */
  datatype Ptr = Ptr(base: array<Block>, index: nat)

  /**
   * How an operation that returns a vector or NULL ended: `Overflow` is NULL
   * with errno set to ENOMEM by the vector itself, `Refused` is NULL with the
   * errno that malloc or realloc left.
   */
  datatype Status = Ok | Overflow | Refused

  /** The contents given to a slot that C leaves indeterminate. */
  function Zeros(z: nat): (b: Block)
    ensures |b| == z
  {
    seq(z, _ => 0)
  }

  /** A vector whose element volume * z fits is also one with any smaller volume. */
  lemma FitsBelow(smaller: nat, volume: nat, z: nat)
    requires smaller <= volume && Fits(volume, z)
    ensures Fits(smaller, z)
  {
    assert volume * z == smaller * z + (volume - smaller) * z;
  }

  /**
   * A fresh allocation of `count` slots whose first slots receive a copy of
   * `prefix` (malloc or realloc followed by the copy of what survives); the
   * remaining slots, indeterminate in C, are zero here.
   */
  method NewSlots(prefix: seq<Block>, count: nat, z: nat) returns (a: array<Block>)
    requires |prefix| <= count
    requires forall k :: 0 <= k < |prefix| ==> |prefix[k]| == z
    ensures fresh(a) && a.Length == count
    ensures a[..|prefix|] == prefix
    ensures forall k :: 0 <= k < count ==> |a[k]| == z
  {
    a := new Block[count];
    forall k | 0 <= k < count {
      a[k] := if k < |prefix| then prefix[k] else Zeros(z);
    }
  }

  /** Every slot holds z bytes. */
  ghost predicate Uniform(s: seq<Block>, z: nat)
  {
    forall k :: 0 <= k < |s| ==> |s[k]| == z
  }

  /** memmove on slots: `count` slots from `src` copied to `dst` as if through a buffer. */
  function Memmove(s: seq<Block>, dst: nat, src: nat, count: nat): (r: seq<Block>)
    requires dst + count <= |s| && src + count <= |s|
    ensures |r| == |s|
  {
    seq(|s|, k requires 0 <= k < |s| => if dst <= k < dst + count then s[k - dst + src] else s[k])
  }

  /** memcpy on slots: `elmts` copied to the slots from `dst`. */
  function Memcpy(s: seq<Block>, dst: nat, elmts: seq<Block>): (r: seq<Block>)
    requires dst + |elmts| <= |s|
    ensures |r| == |s|
  {
    s[..dst] + elmts + s[dst + |elmts|..]
  }

  /**
   * inject's two copies on the slot contents `blocks` of a vector of length
   * L: `after` is the result of the memmove of the tail n slots up, then
   * (when `gap` is given) of the memcpy of the new elements. The first L + n
   * slots are then the old elements with `gap` injected at i; the slots
   * stay z bytes wide.
   */
  lemma InjectSlots(blocks: seq<Block>, after: seq<Block>, L: nat, i: nat, n: nat, gap: Option<seq<Block>>, z: nat)
    requires i <= L && L + n <= |blocks| && Uniform(blocks, z)
    requires gap.Some? ==> |gap.value| == n && Uniform(gap.value, z)
    requires gap.None? ==> after == Memmove(blocks, i + n, i, L - i)
    requires gap.Some? ==> after == Memcpy(Memmove(blocks, i + n, i, L - i), i, gap.value)
    ensures Uniform(after, z)
    ensures after[..L + n][..i] == blocks[..L][..i]
    ensures after[..L + n][i + n..] == blocks[..L][i..]
    ensures gap.Some? ==> after[..L + n] == Injected(blocks[..L], i, gap.value)
  {
    var moved := Memmove(blocks, i + n, i, L - i);
    MemmoveUp(blocks, L, i, n, z);
    if gap.Some? {
      assert after[..L + n] == moved[..i] + gap.value + moved[i + n..L + n];
      assert blocks[..L] == blocks[..i] + blocks[i..L];
      assert Uniform(after, z) by {
        forall k | 0 <= k < |after|
          ensures |after[k]| == z
        {
          if i <= k < i + n {
            assert after[k] == gap.value[k - i];
          } else {
            assert after[k] == moved[k];
          }
        }
      }
    }
  }

  /** inject's memmove on its own: the prefix stays and the tail lands n slots up. */
  lemma MemmoveUp(blocks: seq<Block>, L: nat, i: nat, n: nat, z: nat)
    requires i <= L && L + n <= |blocks| && Uniform(blocks, z)
    ensures var moved := Memmove(blocks, i + n, i, L - i);
      && Uniform(moved, z)
      && moved[..i] == blocks[..i]
      && moved[i + n..L + n] == blocks[i..L]
  {
    var moved := Memmove(blocks, i + n, i, L - i);
    assert forall k :: 0 <= k < |moved| ==> moved[k] == blocks[if i + n <= k < L + n then k - n else k];
  }

  /**
   * excise's memmove of the tail n slots down, on the slot contents
   * `blocks` of a vector of length L: the first L - n slots are then the
   * old elements with [i, i + n) removed; the slots stay z bytes wide.
   */
  lemma ExciseSlots(blocks: seq<Block>, L: nat, i: nat, n: nat, z: nat)
    requires i + n <= L <= |blocks| && Uniform(blocks, z)
    ensures var after := Memmove(blocks, i, i + n, L - n - i);
      && Uniform(after, z)
      && after[..L - n] == Excised(blocks[..L], i, n)
  {
    var after := Memmove(blocks, i, i + n, L - n - i);
    var r := Excised(blocks[..L], i, n);
    forall k | 0 <= k < L - n
      ensures after[k] == r[k]
    {
      ExcisedAt(blocks[..L], i, n, k);
    }
    assert |r| == L - n;
  }

  /**
   * One byte of swap's exchange: in a block holding the first k bytes of
   * `b` and the rest of `a`, byte k is still a's; writing b's byte k there
   * extends the prefix from `b` by one.
   */
  lemma SpliceStep(a: Block, b: Block, k: nat)
    requires |a| == |b| && k < |a|
    ensures (b[..k] + a[k..])[k] == a[k]
    ensures (b[..k] + a[k..])[k := b[k]] == b[..k + 1] + a[k + 1..]
  {
  }

  /**
   * Whether ensure asks for its headroom target for `length`: the target
   * must exceed `length` (it did not wrap) and its byte size must be a
   * size_t, or resize fails with ENOMEM before asking.
   */
  predicate TriesTarget(length: SizeT, z: nat)
  {
    GrowthTarget(length) > length && Fits(GrowthTarget(length), z)
  }

  /** Whether ensure obtains its headroom target under the allocator script. */
  predicate GetsTarget(length: SizeT, z: nat, script: seq<bool>)
  {
    TriesTarget(length, z) && Grants(script)
  }

  /** The script left for ensure's fallback: the target request, if made, used one entry. */
  function AfterTarget(length: SizeT, z: nat, script: seq<bool>): seq<bool>
  {
    if TriesTarget(length, z) then Advance(script) else script
  }

  /**
   * How ensure from volume `volume` to `length` ends under the allocator
   * script: at once when the volume suffices, with the target when it is
   * granted, and otherwise as the resize to exactly `length` ends (ENOMEM
   * when its size overflows, malloc's refusal when refused).
   */
  function EnsureStatus(volume: SizeT, length: SizeT, z: nat, script: seq<bool>): (status: Status)
  {
    if length <= volume || GetsTarget(length, z, script) then Ok
    else if !Fits(length, z) then Overflow
    else if Grants(AfterTarget(length, z, script)) then Ok
    else Refused
  }

  /** The volume a successful ensure leaves. */
  function EnsureVolume(volume: SizeT, length: SizeT, z: nat, script: seq<bool>): (v: nat)
  {
    if length <= volume then volume
    else if GetsTarget(length, z, script) then GrowthTarget(length)
    else length
  }

  /** The byte sizes ensure asks the allocator for, in order. */
  function EnsureRequests(volume: SizeT, length: SizeT, z: nat, script: seq<bool>): (sizes: seq<nat>)
  {
    if length <= volume then []
    else
      (if TriesTarget(length, z) then [GrowthTarget(length) * z + HEADER_SIZE] else []) +
      (if GetsTarget(length, z, script) || !Fits(length, z) then [] else [length * z + HEADER_SIZE])
  }

  /** The allocator script after ensure: one entry used per request. */
  function EnsureScript(volume: SizeT, length: SizeT, z: nat, script: seq<bool>): (rest: seq<bool>)
  {
    if length <= volume then script
    else if GetsTarget(length, z, script) || !Fits(length, z) then AfterTarget(length, z, script)
    else Advance(AfterTarget(length, z, script))
  }

  /**
   * What ensure promises: a success leaves room for `length` (exactly
   * `length`, or the headroom target above it); ENOMEM arises only when
   * the size of `length` elements itself overflows; when the allocator
   * grants the (at most two) requests and that size fits, ensure succeeds;
   * and at most two requests are made, none when the volume suffices.
   */
  lemma EnsureOutcome(volume: SizeT, length: SizeT, z: nat, script: seq<bool>)
    ensures EnsureStatus(volume, length, z, script) == Ok ==> EnsureVolume(volume, length, z, script) >= length
    ensures length > volume && EnsureStatus(volume, length, z, script) == Ok ==>
      EnsureVolume(volume, length, z, script) == length ||
      (EnsureVolume(volume, length, z, script) == GrowthTarget(length) && GrowthTarget(length) > length)
    ensures EnsureStatus(volume, length, z, script) == Overflow <==>
      length > volume && !Fits(length, z) && !GetsTarget(length, z, script)
    ensures Fits(length, z) && Grants(script) && Grants(Advance(script)) ==>
      EnsureStatus(volume, length, z, script) == Ok
    ensures |EnsureRequests(volume, length, z, script)| <= 2
    ensures length <= volume ==> EnsureRequests(volume, length, z, script) == []
  {
  }

  class Vector {
    /** header->volume: the number of slots allocated. */
    var volume: SizeT
    /** header->length: the number of slots in use. */
    var length: SizeT
    /** The slots following the header. */
    var data: array<Block>

    /**
     * The header invariant for element size z: the length never exceeds the
     * volume, the allocation size volume * z + sizeof(header_t) is a size_t,
     * and every slot holds z bytes.
     */
    ghost predicate Valid(z: nat)
      reads this, data
    {
      && length <= volume
      && data.Length == volume
      && Fits(volume, z)
      && forall k :: 0 <= k < data.Length ==> |data[k]| == z
    }

    /** The elements of the vector, in order. */
    ghost function Elements(): seq<Block>
      reads this, data
      requires length <= data.Length
    {
      data[..length]
    }

    constructor Init(volume: SizeT, length: SizeT, data: array<Block>)
      ensures this.volume == volume && this.length == length && this.data == data
    {
      this.volume := volume;
      this.length := length;
      this.data := data;
    }

    /**
     * mx_vector_create / vector_create: one malloc of sizeof(header_t); on
     * success an empty vector with no slots, on failure NULL with malloc's errno.
     */
    static method Create(alloc: Allocator) returns (v: Vector?, status: Status)
      modifies alloc
      ensures alloc.requests == old(alloc.requests) + [HEADER_SIZE]
      ensures alloc.refusals == Advance(old(alloc.refusals))
      ensures status == if Grants(old(alloc.refusals)) then Ok else Refused
      ensures v != null <==> status == Ok
      ensures v != null ==> fresh(v) && v.volume == 0 && v.length == 0 && v.data.Length == 0
      ensures v != null ==> forall z: SizeT :: v.Valid(z)
    {
      var granted := alloc.Request(HEADER_SIZE);
      if !granted {
        return null, Refused;
      }
      var slots := new Block[0];
      v := new Vector.Init(0, 0, slots);
      status := Ok;
    }

    /**
     * mx_vector_import_z / vector_import_z: a vector holding a copy of the
     * first `length` elements of `data`, with volume == length. The product
     * length * z is the size of the caller's object and so is not checked;
     * adding sizeof(header_t) is.
     */
    static method Import(data: seq<Block>, length: SizeT, z: SizeT, alloc: Allocator)
      returns (v: Vector?, status: Status)
      requires length <= |data| && length * z <= SIZE_MAX
      requires forall k :: 0 <= k < length ==> |data[k]| == z
      modifies alloc
      ensures !Fits(length, z) ==> status == Overflow && unchanged(alloc)
      ensures Fits(length, z) ==>
        && alloc.requests == old(alloc.requests) + [length * z + HEADER_SIZE]
        && alloc.refusals == Advance(old(alloc.refusals))
        && status == if Grants(old(alloc.refusals)) then Ok else Refused
      ensures v != null <==> status == Ok
      ensures v != null ==> fresh(v) && fresh(v.data) && v.Valid(z)
      ensures v != null ==> v.volume == length && v.length == length && v.Elements() == data[..length]
    {
      var (addOver, size) := AddOverflow(length * z, HEADER_SIZE);
      if addOver {
        return null, Overflow;
      }
      var granted := alloc.Request(size);
      if !granted {
        return null, Refused;
      }
      var slots := NewSlots(data[..length], length, z);
      v := new Vector.Init(length, length, slots);
      status := Ok;
    }

    /**
     * mx_vector_duplicate_z: a copy of `source` with the same elements. The
     * first malloc asks for the source's volume; if it fails and the source
     * has spare slots, a second malloc asks for just its length. Both errors
     * keep malloc's errno.
     */
    static method Duplicate(source: Vector, z: SizeT, alloc: Allocator)
      returns (v: Vector?, status: Status)
      requires source.Valid(z)
      modifies alloc
      ensures var first := old(alloc.refusals);
        && alloc.requests == old(alloc.requests) + [source.volume * z + HEADER_SIZE] +
             (if Grants(first) || source.length == source.volume then [] else [source.length * z + HEADER_SIZE])
        && (v != null <==> Grants(first) || (source.length != source.volume && Grants(Advance(first))))
        && (v != null ==> v.volume == if Grants(first) then source.volume else source.length)
      ensures status == Ok || status == Refused
      ensures v != null <==> status == Ok
      ensures v != null ==> fresh(v) && fresh(v.data) && v.Valid(z)
      ensures v != null ==> v.length == source.length && v.Elements() == source.Elements()
    {
      var volume, length := source.volume, source.length;
      var kept := source.data[..length];
      var granted := alloc.Request(volume * z + HEADER_SIZE);
      var capacity := volume;
      if !granted {
        if length == volume {
          return null, Refused;
        }
        granted := alloc.Request(length * z + HEADER_SIZE);
        if !granted {
          return null, Refused;
        }
        capacity := length;
      }
      FitsBelow(capacity, volume, z);
      var slots := NewSlots(kept, capacity, z);
      v := new Vector.Init(capacity, length, slots);
      status := Ok;
      assert v.Elements() == kept;
    }

    /**
     * mx_vector_resize_z / vector_resize_z: reallocate to exactly `volume`
     * slots. The size volume * z + sizeof(header_t) is checked first; an
     * overflow fails with ENOMEM before the allocator is asked. On success
     * the first min(old volume, volume) slots survive and the length is
     * truncated to the new volume. On any failure nothing changes.
     */
    method Resize(volume: SizeT, z: SizeT, alloc: Allocator) returns (status: Status)
      requires Valid(z)
      modifies this, alloc
      ensures Valid(z)
      ensures !Fits(volume, z) ==> status == Overflow && unchanged(alloc)
      ensures Fits(volume, z) ==>
        && alloc.requests == old(alloc.requests) + [volume * z + HEADER_SIZE]
        && alloc.refusals == Advance(old(alloc.refusals))
        && status == if Grants(old(alloc.refusals)) then Ok else Refused
      ensures status == Ok ==>
        && this.volume == volume
        && length == (if old(length) <= volume then old(length) else volume)
        && fresh(data)
        && Elements() == old(Elements())[..length]
        && (var kept := if old(this.volume) <= volume then old(this.volume) else volume;
            data[..kept] == old(data[..kept]))
      ensures status != Ok ==> this.volume == old(this.volume) && length == old(length) && data == old(data)
    {
      var size := CheckedSize(volume, z);
      CheckedSizeExact(volume, z);
      if size.None? {
        return Overflow;
      }
      var granted := alloc.Request(size.value);
      if !granted {
        return Refused;
      }
      var kept := if this.volume <= volume then this.volume else volume;
      data := NewSlots(data[..kept], volume, z);
      this.volume := volume;
      if volume < length {
        length := volume;
      }
      status := Ok;
    }

    /**
     * mx_vector_shrink_z / vector_shrink_z: resize to the length. It never
     * reports failure: if the realloc is refused the vector is kept as it was.
     */
    method Shrink(z: SizeT, alloc: Allocator)
      requires Valid(z)
      modifies this, alloc
      ensures Valid(z)
      ensures alloc.requests == old(alloc.requests) + [old(length) * z + HEADER_SIZE]
      ensures alloc.refusals == Advance(old(alloc.refusals))
      ensures length == old(length) && Elements() == old(Elements())
      ensures volume == if Grants(old(alloc.refusals)) then length else old(volume)
    {
      FitsBelow(length, volume, z);
      var status := Resize(length, z, alloc);
    }

    /**
     * mx_vector_ensure_z / vector_ensure_z: make room for `length` elements.
     * Nothing is done when the volume already suffices. Otherwise the
     * headroom target is tried first, but only when it exceeds `length`
     * (which detects its size_t wrap-around); if it is not tried or fails,
     * exactly `length` is tried. On failure nothing changes.
     */
    method Ensure(length: SizeT, z: SizeT, alloc: Allocator) returns (status: Status)
      requires Valid(z)
      modifies this, alloc
      ensures Valid(z)
      ensures status == EnsureStatus(old(volume), length, z, old(alloc.refusals))
      ensures alloc.requests == old(alloc.requests) + EnsureRequests(old(volume), length, z, old(alloc.refusals))
      ensures alloc.refusals == EnsureScript(old(volume), length, z, old(alloc.refusals))
      ensures status == Ok ==> volume == EnsureVolume(old(volume), length, z, old(alloc.refusals))
      ensures old(volume) >= length ==> status == Ok && unchanged(this) && unchanged(alloc)
      ensures status == Ok ==> volume >= length && this.length == old(this.length) && Elements() == old(Elements())
      ensures old(volume) < length && status == Ok ==>
        volume == length || (volume == GrowthTarget(length) && volume > length)
      ensures (old(volume) < length && GrowthTarget(length) > length && Fits(GrowthTarget(length), z)
               && Grants(old(alloc.refusals))) ==> status == Ok && volume == GrowthTarget(length)
      ensures status != Ok ==> volume == old(volume) && this.length == old(this.length) && data == old(data)
      ensures data == old(data) || fresh(data)
    {
      if length <= volume {
        return Ok;
      }
      var target := GrowthTarget(length);
      if target > length {
        GrowthTargetWrapCheck(length);
        status := Resize(target, z, alloc);
        if status == Ok {
          return;
        }
      }
      status := Resize(length, z, alloc);
    }

    /** memmove within the slots. */
    method MoveSlots(dst: nat, src: nat, count: nat)
      requires dst + count <= data.Length && src + count <= data.Length
      modifies data
      ensures data[..] == Memmove(old(data[..]), dst, src, count)
    {
      var snapshot := data[..];
      forall k | dst <= k < dst + count {
        data[k] := snapshot[k - dst + src];
      }
    }

    /** memcpy of caller elements into the slots starting at `dst`. */
    method CopyIn(dst: nat, elmts: seq<Block>)
      requires dst + |elmts| <= data.Length
      modifies data
      ensures data[..] == Memcpy(old(data[..]), dst, elmts)
    {
      forall k | dst <= k < dst + |elmts| {
        data[k] := elmts[k - dst];
      }
    }

    /**
     * mx_vector_inject_z: insert `n` elements at index i, copied from `elmt`
     * or left indeterminate when `elmt` is NULL (None). The new length is
     * checked for overflow (ENOMEM), then room is ensured; on either failure
     * nothing changes. When the volume already holds the new length no
     * allocation is attempted and the call cannot fail.
     */
    method Inject(i: SizeT, elmt: Option<seq<Block>>, n: SizeT, z: SizeT, alloc: Allocator)
      returns (status: Status)
      requires Valid(z) && i <= length
      requires elmt.Some? ==> n <= |elmt.value| && forall k :: 0 <= k < n ==> |elmt.value[k]| == z
      modifies this, data, alloc
      ensures Valid(z)
      ensures old(length) + n > SIZE_MAX ==> status == Overflow && unchanged(alloc)
      ensures old(length) + n <= old(volume) ==> status == Ok && unchanged(alloc) && volume == old(volume)
      ensures old(length) + n <= SIZE_MAX ==>
        status == EnsureStatus(old(volume), old(length) + n, z, old(alloc.refusals)) &&
        alloc.requests == old(alloc.requests) + EnsureRequests(old(volume), old(length) + n, z, old(alloc.refusals)) &&
        alloc.refusals == EnsureScript(old(volume), old(length) + n, z, old(alloc.refusals))
      ensures old(length) + n <= SIZE_MAX && status == Ok ==>
        volume == EnsureVolume(old(volume), old(length) + n, z, old(alloc.refusals))
      ensures status != Ok ==>
        volume == old(volume) && length == old(length) && data == old(data) && data[..] == old(data[..])
      ensures status == Ok ==> length == old(length) + n && volume >= length
      ensures status == Ok ==>
        Elements()[..i] == old(Elements())[..i] && Elements()[i + n..] == old(Elements())[i..]
      ensures status == Ok && elmt.Some? ==> Elements() == Injected(old(Elements()), i, elmt.value[..n])
    {
      var (addOver, newLength) := AddOverflow(length, n);
      if addOver {
        return Overflow;
      }
      status := Ensure(newLength, z, alloc);
      if status != Ok {
        return;
      }
      OpenGap(i, if elmt.Some? then Some(elmt.value[..n]) else None, n, z);
    }

    /**
     * inject's copies once the volume holds length + n: the tail moves n
     * slots up, the new elements (if any) are copied in, and the length grows.
     */
    method OpenGap(i: SizeT, gap: Option<seq<Block>>, n: SizeT, z: SizeT)
      requires Valid(z) && i <= length && length + n <= volume
      requires gap.Some? ==> |gap.value| == n && Uniform(gap.value, z)
      modifies this, data
      ensures Valid(z) && volume == old(volume) && data == old(data)
      ensures length == old(length) + n
      ensures Elements()[..i] == old(Elements())[..i] && Elements()[i + n..] == old(Elements())[i..]
      ensures gap.Some? ==> Elements() == Injected(old(Elements()), i, gap.value)
    {
      ShiftAndCopy(i, gap, n, z);
      length := length + n;
    }

    /**
     * inject's memmove of the tail n slots up and, when elements are given,
     * their memcpy into the gap; the length is not yet changed.
     */
    method ShiftAndCopy(i: SizeT, gap: Option<seq<Block>>, n: SizeT, z: SizeT)
      requires Valid(z) && i <= length && length + n <= volume
      requires gap.Some? ==> |gap.value| == n && Uniform(gap.value, z)
      modifies data
      ensures Valid(z)
      ensures data[..length + n][..i] == old(Elements())[..i]
      ensures data[..length + n][i + n..] == old(Elements())[i..]
      ensures gap.Some? ==> data[..length + n] == Injected(old(Elements()), i, gap.value)
    {
      ghost var blocks := data[..];
      MoveSlots(i + n, i, length - i);
      if gap.Some? {
        CopyIn(i, gap.value);
      }
      InjectSlots(blocks, data[..], length, i, n, gap, z);
      assert blocks[..length] == old(Elements());
      assert forall k :: 0 <= k < data.Length ==> |data[k]| == |data[..][k]|;
    }

    /** mx_vector_insert_z: inject one element at index i. */
    method Insert(i: SizeT, elmt: Option<Block>, z: SizeT, alloc: Allocator) returns (status: Status)
      requires Valid(z) && i <= length
      requires elmt.Some? ==> |elmt.value| == z
      modifies this, data, alloc
      ensures Valid(z)
      ensures old(length) + 1 > SIZE_MAX ==> status == Overflow && unchanged(alloc)
      ensures old(length) + 1 <= old(volume) ==> status == Ok && unchanged(alloc) && volume == old(volume)
      ensures old(length) + 1 <= SIZE_MAX ==>
        status == EnsureStatus(old(volume), old(length) + 1, z, old(alloc.refusals)) &&
        alloc.requests == old(alloc.requests) + EnsureRequests(old(volume), old(length) + 1, z, old(alloc.refusals)) &&
        alloc.refusals == EnsureScript(old(volume), old(length) + 1, z, old(alloc.refusals))
      ensures old(length) + 1 <= SIZE_MAX && status == Ok ==>
        volume == EnsureVolume(old(volume), old(length) + 1, z, old(alloc.refusals))
      ensures status != Ok ==>
        volume == old(volume) && length == old(length) && data == old(data) && data[..] == old(data[..])
      ensures status == Ok ==> length == old(length) + 1
      ensures status == Ok && elmt.Some? ==> Elements() == old(Elements())[..i] + [elmt.value] + old(Elements())[i..]
    {
      status := Inject(i, if elmt.Some? then Some([elmt.value]) else None, 1, z, alloc);
    }

    /** mx_vector_append_z: inject one element at the end. */
    method Append(elmt: Option<Block>, z: SizeT, alloc: Allocator) returns (status: Status)
      requires Valid(z)
      requires elmt.Some? ==> |elmt.value| == z
      modifies this, data, alloc
      ensures Valid(z)
      ensures old(length) + 1 > SIZE_MAX ==> status == Overflow && unchanged(alloc)
      ensures old(length) + 1 <= old(volume) ==> status == Ok && unchanged(alloc) && volume == old(volume)
      ensures old(length) + 1 <= SIZE_MAX ==>
        status == EnsureStatus(old(volume), old(length) + 1, z, old(alloc.refusals)) &&
        alloc.requests == old(alloc.requests) + EnsureRequests(old(volume), old(length) + 1, z, old(alloc.refusals)) &&
        alloc.refusals == EnsureScript(old(volume), old(length) + 1, z, old(alloc.refusals))
      ensures old(length) + 1 <= SIZE_MAX && status == Ok ==>
        volume == EnsureVolume(old(volume), old(length) + 1, z, old(alloc.refusals))
      ensures status != Ok ==>
        volume == old(volume) && length == old(length) && data == old(data) && data[..] == old(data[..])
      ensures status == Ok ==> length == old(length) + 1 && Elements()[..old(length)] == old(Elements())
      ensures status == Ok && elmt.Some? ==> Elements() == old(Elements()) + [elmt.value]
    {
      status := Inject(length, if elmt.Some? then Some([elmt.value]) else None, 1, z, alloc);
    }

    /** mx_vector_extend_z: inject n elements at the end. */
    method Extend(elmt: Option<seq<Block>>, n: SizeT, z: SizeT, alloc: Allocator) returns (status: Status)
      requires Valid(z)
      requires elmt.Some? ==> n <= |elmt.value| && forall k :: 0 <= k < n ==> |elmt.value[k]| == z
      modifies this, data, alloc
      ensures Valid(z)
      ensures old(length) + n > SIZE_MAX ==> status == Overflow && unchanged(alloc)
      ensures old(length) + n <= old(volume) ==> status == Ok && unchanged(alloc) && volume == old(volume)
      ensures old(length) + n <= SIZE_MAX ==>
        status == EnsureStatus(old(volume), old(length) + n, z, old(alloc.refusals)) &&
        alloc.requests == old(alloc.requests) + EnsureRequests(old(volume), old(length) + n, z, old(alloc.refusals)) &&
        alloc.refusals == EnsureScript(old(volume), old(length) + n, z, old(alloc.refusals))
      ensures old(length) + n <= SIZE_MAX && status == Ok ==>
        volume == EnsureVolume(old(volume), old(length) + n, z, old(alloc.refusals))
      ensures status != Ok ==>
        volume == old(volume) && length == old(length) && data == old(data) && data[..] == old(data[..])
      ensures status == Ok ==> length == old(length) + n && Elements()[..old(length)] == old(Elements())
      ensures status == Ok && elmt.Some? ==> Elements() == old(Elements()) + elmt.value[..n]
    {
      status := Inject(length, elmt, n, z, alloc);
    }

    /**
     * The guarantee of a successful ensure: an insert that keeps the length
     * within the ensured length then succeeds without asking the allocator.
     */
    method EnsureThenInsert(length: SizeT, i: SizeT, elmt: Option<Block>, z: SizeT, alloc: Allocator)
      returns (ensured: Status, inserted: Status)
      requires Valid(z) && i <= this.length
      requires elmt.Some? ==> |elmt.value| == z
      modifies this, data, alloc
      ensures Valid(z)
      ensures ensured == Ok && old(this.length) + 1 <= length ==> inserted == Ok
      ensures ensured == Ok && old(this.length) + 1 <= length && elmt.Some? ==>
        Elements() == old(Elements())[..i] + [elmt.value] + old(Elements())[i..]
    {
      ensured := Ensure(length, z, alloc);
      inserted := Insert(i, elmt, z, alloc);
    }

    /**
     * mx_vector_excise_z / vector_excise_z: remove the n elements at index i.
     * The tail is shifted down; then, if the new length is at most
     * (volume - 1) / 2, a realloc to the shrink target is tried, and its
     * failure is ignored. Excise never returns NULL.
     */
    method Excise(i: SizeT, n: SizeT, z: SizeT, alloc: Allocator)
      requires Valid(z) && i + n <= length
      modifies this, data, alloc
      ensures Valid(z)
      ensures length == old(length) - n
      ensures Elements() == Excised(old(Elements()), i, n)
      ensures old(length) - n <= ShrinkThreshold(old(volume)) ==>
        && alloc.requests == old(alloc.requests) + [ShrinkTarget(old(length) - n) * z + HEADER_SIZE]
        && alloc.refusals == Advance(old(alloc.refusals))
        && volume == if Grants(old(alloc.refusals)) then ShrinkTarget(old(length) - n) else old(volume)
      ensures old(length) - n > ShrinkThreshold(old(volume)) ==> unchanged(alloc) && volume == old(volume)
    {
      CloseGap(i, n, z);
      Settle(length - n, z, alloc);
    }

    /** excise's memmove: the slots after [i, i + n) move down over it. */
    method CloseGap(i: SizeT, n: SizeT, z: SizeT)
      requires Valid(z) && i + n <= length
      modifies data
      ensures Valid(z)
      ensures data[..length - n] == Excised(old(Elements()), i, n)
    {
      ghost var blocks := data[..];
      MoveSlots(i, i + n, length - n - i);
      ExciseSlots(blocks, length, i, n, z);
    }

    /**
     * The end of excise once the first `length` slots hold the remaining
     * elements: if length <= (volume - 1) / 2 a realloc to the shrink target
     * is tried and its failure ignored; then the length is set.
     */
    method Settle(length: SizeT, z: SizeT, alloc: Allocator)
      requires Valid(z) && length <= this.length
      modifies this, alloc
      ensures Valid(z)
      ensures this.length == length
      ensures Elements() == old(data[..length])
      ensures length <= ShrinkThreshold(old(volume)) ==>
        && alloc.requests == old(alloc.requests) + [ShrinkTarget(length) * z + HEADER_SIZE]
        && alloc.refusals == Advance(old(alloc.refusals))
        && volume == if Grants(old(alloc.refusals)) then ShrinkTarget(length) else old(volume)
      ensures length > ShrinkThreshold(old(volume)) ==> unchanged(alloc) && volume == old(volume)
    {
      if length <= ShrinkThreshold(volume) {
        var target := ShrinkTarget(length);
        ShrinkTargetBounds(length, volume);
        FitsBelow(target, volume, z);
        var status := Resize(target, z, alloc);
        assert data[..target][..length] == data[..length];
      }
      this.length := length;
    }

    /** mx_vector_remove_z / vector_remove_z: excise the one element at index i. */
    method Remove(i: SizeT, z: SizeT, alloc: Allocator)
      requires Valid(z) && i < length
      modifies this, data, alloc
      ensures Valid(z)
      ensures length == old(length) - 1
      ensures Elements() == old(Elements())[..i] + old(Elements())[i + 1..]
      ensures old(length) - 1 <= ShrinkThreshold(old(volume)) ==>
        && alloc.requests == old(alloc.requests) + [ShrinkTarget(old(length) - 1) * z + HEADER_SIZE]
        && alloc.refusals == Advance(old(alloc.refusals))
        && volume == if Grants(old(alloc.refusals)) then ShrinkTarget(old(length) - 1) else old(volume)
      ensures old(length) - 1 > ShrinkThreshold(old(volume)) ==> unchanged(alloc) && volume == old(volume)
    {
      Excise(i, 1, z, alloc);
    }

    /**
     * mx_vector_truncate_z / vector_truncate_z: keep the first `length`
     * elements, by excising the rest from index length - (length - L).
     */
    method Truncate(length: SizeT, z: SizeT, alloc: Allocator)
      requires Valid(z) && length <= this.length
      modifies this, data, alloc
      ensures Valid(z)
      ensures this.length == length
      ensures Elements() == old(Elements())[..length]
      ensures length <= ShrinkThreshold(old(volume)) ==>
        && alloc.requests == old(alloc.requests) + [ShrinkTarget(length) * z + HEADER_SIZE]
        && alloc.refusals == Advance(old(alloc.refusals))
        && volume == if Grants(old(alloc.refusals)) then ShrinkTarget(length) else old(volume)
      ensures length > ShrinkThreshold(old(volume)) ==> unchanged(alloc) && volume == old(volume)
    {
      var n := this.length - length;
      Excise(this.length - n, n, z, alloc);
    }

    /**
     * mx_vector_get: copy slot i to the location `elmt`. Copying between
     * overlapping objects is undefined (the restrict qualifiers), so `elmt`
     * may not be slot i itself.
     */
    method Get(i: SizeT, elmt: Ptr, z: SizeT)
      requires Valid(z) && i < length
      requires elmt.index < elmt.base.Length
      requires !(elmt.base == data && elmt.index == i)
      modifies elmt.base
      ensures Valid(z)
      ensures elmt.base[..] == old(elmt.base[..])[elmt.index := old(data[i])]
    {
      elmt.base[elmt.index] := data[i];
    }

    /**
     * mx_vector_set: copy the z bytes at `elmt` into slot i. As for get, the
     * location may not be slot i itself.
     */
    method Set(i: SizeT, elmt: Ptr, z: SizeT)
      requires Valid(z) && i < length
      requires elmt.index < elmt.base.Length && |elmt.base[elmt.index]| == z
      requires !(elmt.base == data && elmt.index == i)
      modifies data
      ensures Valid(z)
      ensures data[..] == old(data[..])[i := old(elmt.base[elmt.index])]
      ensures Elements() == old(Elements())[i := old(elmt.base[elmt.index])]
    {
      data[i] := elmt.base[elmt.index];
    }

    /**
     * set then get at the same index, the pair the documentation calls
     * inverse operations: the location read from receives what was written.
     */
    method SetThenGet(i: SizeT, src: Ptr, dst: Ptr, z: SizeT)
      requires Valid(z) && i < length
      requires src.index < src.base.Length && |src.base[src.index]| == z
      requires !(src.base == data && src.index == i)
      requires dst.index < dst.base.Length && !(dst.base == data && dst.index == i)
      modifies data, dst.base
      ensures Valid(z)
      ensures data[i] == old(src.base[src.index])
      ensures dst.base[dst.index] == old(src.base[src.index])
    {
      Set(i, src, z);
      Get(i, dst, z);
    }

    /**
     * vector_get with the self-copy guard: when `elmt` is the address of
     * slot i the copy is skipped, so any location is accepted.
     */
    method GetGuarded(i: SizeT, elmt: Ptr, z: SizeT)
      requires Valid(z) && i < length
      requires elmt.index < elmt.base.Length
      modifies elmt.base
      ensures Valid(z)
      ensures elmt.base[..] == old(elmt.base[..])[elmt.index := old(data[i])]
      ensures elmt.base == data && elmt.index == i ==> data[..] == old(data[..])
    {
      if elmt.base == data && elmt.index == i {
        return;
      }
      elmt.base[elmt.index] := data[i];
    }

    /** vector_set with the self-copy guard. */
    method SetGuarded(i: SizeT, elmt: Ptr, z: SizeT)
      requires Valid(z) && i < length
      requires elmt.index < elmt.base.Length && |elmt.base[elmt.index]| == z
      modifies data
      ensures Valid(z)
      ensures data[..] == old(data[..])[i := old(elmt.base[elmt.index])]
      ensures elmt.base == data && elmt.index == i ==> data[..] == old(data[..])
    {
      if elmt.base == data && elmt.index == i {
        return;
      }
      data[i] := elmt.base[elmt.index];
    }

    /**
     * mx_vector_pull_z: optionally copy the last element to `elmt`, then
     * remove it. The destination may not lie in the vector.
     */
    method Pull(elmt: Option<Ptr>, z: SizeT, alloc: Allocator)
      requires Valid(z) && 0 < length
      requires elmt.Some? ==> elmt.value.base != data && elmt.value.index < elmt.value.base.Length
      modifies this, data, alloc, if elmt.Some? then {elmt.value.base} else {}
      ensures Valid(z)
      ensures Elements() == old(Elements())[..old(length) - 1]
      ensures old(length) - 1 <= ShrinkThreshold(old(volume)) ==>
        && alloc.requests == old(alloc.requests) + [ShrinkTarget(old(length) - 1) * z + HEADER_SIZE]
        && alloc.refusals == Advance(old(alloc.refusals))
        && volume == if Grants(old(alloc.refusals)) then ShrinkTarget(old(length) - 1) else old(volume)
      ensures old(length) - 1 > ShrinkThreshold(old(volume)) ==> unchanged(alloc) && volume == old(volume)
      ensures elmt.Some? ==>
        elmt.value.base[..] == old(elmt.value.base[..])[elmt.value.index := old(Elements())[old(length) - 1]]
    {
      if elmt.Some? {
        Get(length - 1, elmt.value, z);
      }
      Remove(length - 1, z, alloc);
    }

    /**
     * mx_vector_shift_z: optionally copy the first element to `elmt`, then
     * remove it.
     */
    method Shift(elmt: Option<Ptr>, z: SizeT, alloc: Allocator)
      requires Valid(z) && 0 < length
      requires elmt.Some? ==> elmt.value.base != data && elmt.value.index < elmt.value.base.Length
      modifies this, data, alloc, if elmt.Some? then {elmt.value.base} else {}
      ensures Valid(z)
      ensures Elements() == old(Elements())[1..]
      ensures old(length) - 1 <= ShrinkThreshold(old(volume)) ==>
        && alloc.requests == old(alloc.requests) + [ShrinkTarget(old(length) - 1) * z + HEADER_SIZE]
        && alloc.refusals == Advance(old(alloc.refusals))
        && volume == if Grants(old(alloc.refusals)) then ShrinkTarget(old(length) - 1) else old(volume)
      ensures old(length) - 1 > ShrinkThreshold(old(volume)) ==> unchanged(alloc) && volume == old(volume)
      ensures elmt.Some? ==> elmt.value.base[..] == old(elmt.value.base[..])[elmt.value.index := old(Elements())[0]]
    {
      if elmt.Some? {
        Get(0, elmt.value, z);
      }
      Remove(0, z, alloc);
    }

    /**
     * mx_vector_swap_z / vector_swap_z: exchange slots i and j one byte at a
     * time through a one-byte buffer.
     */
    method Swap(i: SizeT, j: SizeT, z: SizeT)
      requires Valid(z) && i < length && j < length
      modifies data
      ensures Valid(z)
      ensures data[..] == Swapped(old(data[..]), i, j)
    {
      ghost var a, b := data[i], data[j];
      for k := 0 to z
        invariant forall m :: 0 <= m < data.Length && m != i && m != j ==> data[m] == old(data[m])
        invariant data[i] == b[..k] + a[k..]
        invariant data[j] == a[..k] + b[k..]
      {
        SpliceStep(a, b, k);
        SpliceStep(b, a, k);
        var buffer := data[i][k];
        data[i] := data[i][k := data[j][k]];
        data[j] := data[j][k := buffer];
      }
      assert data[i] == b && data[j] == a;
    }

    /**
     * mx_vector_move_z / vector_move_z: move the element at `source` to
     * index `target` by a chain of adjacent swaps, shifting the elements in
     * between by one toward `source`.
     */
    method Move(target: SizeT, source: SizeT, z: SizeT)
      requires Valid(z) && target < length && source < length
      modifies data
      ensures Valid(z)
      ensures data[..] == Moved(old(data[..]), target, source)
      ensures Elements() == Moved(old(Elements()), target, source)
    {
      ghost var s := data[..];
      MovedFrame(s, target, source, 0);
      if target < source {
        SwapDown(target, source, z);
      } else if source < target {
        SwapUp(target, source, z);
      }
      MovedPrefix(s, target, source, length);
    }

    /**
     * move's loop for target < source: the element walks down one slot per
     * swap with its lower neighbour.
     */
    method SwapDown(target: SizeT, source: SizeT, z: SizeT)
      requires Valid(z) && target < source < length
      modifies data
      ensures Valid(z)
      ensures data[..] == Moved(old(data[..]), target, source)
    {
      ghost var s := data[..];
      MovedFrame(s, source, source, 0);
      var at := source;
      while at > target
        invariant target <= at <= source
        invariant Valid(z)
        invariant data[..] == Moved(s, at, source)
      {
        StepDown(s, at, source, z);
        at := at - 1;
      }
    }

    /** One iteration of move's downward loop. */
    method StepDown(ghost s: seq<Block>, at: SizeT, source: SizeT, z: SizeT)
      requires Valid(z) && 0 < at <= source < length && |s| == data.Length
      requires data[..] == Moved(s, at, source)
      modifies data
      ensures Valid(z)
      ensures data[..] == Moved(s, at - 1, source)
    {
      Swap(at - 1, at, z);
      MoveStepDown(s, at, source);
    }

    /**
     * move's loop for source < target: the element walks up one slot per
     * swap with its upper neighbour.
     */
    method SwapUp(target: SizeT, source: SizeT, z: SizeT)
      requires Valid(z) && source < target < length
      modifies data
      ensures Valid(z)
      ensures data[..] == Moved(old(data[..]), target, source)
    {
      ghost var s := data[..];
      MovedFrame(s, source, source, 0);
      var at := source;
      while at < target
        invariant source <= at <= target
        invariant Valid(z)
        invariant data[..] == Moved(s, at, source)
      {
        StepUp(s, at, source, z);
        at := at + 1;
      }
    }

    /** One iteration of move's upward loop. */
    method StepUp(ghost s: seq<Block>, at: SizeT, source: SizeT, z: SizeT)
      requires Valid(z) && source <= at && at + 1 < length && |s| == data.Length
      requires data[..] == Moved(s, at, source)
      modifies data
      ensures Valid(z)
      ensures data[..] == Moved(s, at + 1, source)
    {
      Swap(at, at + 1, z);
      MoveStepUp(s, at, source);
    }
  }
}
