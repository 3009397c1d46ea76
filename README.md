# mxcore vector, modelled in Dafny

The vector of mxcore is a type-erased dynamic array. A header holds two
`size_t` fields, `volume` (the slots allocated) and `length` (the slots in
use). The slots follow the header, and the caller's handle points at slot 0.
Every operation takes the element size `z`. Operations that may reallocate
return the (possibly moved) handle, or NULL with `errno` set.

The repository has two generations of the interface. They share this code:

- `mx_vector_*` in `source/vector.c` and `source/vector.h`;
- `vector_*` in `source/vector/*.h`, `source/vector/*.c` and
  `header/vector/comparison.c`.

Wherever the two are the same, they are modelled once. Where they differ,
both are modelled:

- `vector_get`/`vector_set` in `access.c` have a guard against copying a slot
  onto itself;
- `vector_find_next_z` in `search.h` is a `do`/`while` loop;
- `vector_eq_with_z` takes an element size for each vector.

The modules:

- `Sizes` (sizes.dfy): `size_t` as a bounded natural, `SIZE_MAX`/`MX_ABSENT`,
  and the header size. It holds the checked allocation size, the growth target
  of ensure, and the shrink trigger and target of excise. C's wrap-around is
  explicit. Each wrapped value is defined by cases, and a lemma proves it equal
  to the C expression reduced modulo 2^64.
- `Allocation` (allocator.dfy): malloc/realloc as an oracle. It holds a script
  of grants and refusals and logs every requested byte size.
- `Rearrange` (rearrange.dfy): what inject, excise, swap and move mean on the
  sequence of elements, and the laws relating them.
- `Addressing` (addressing.dfy): `at`, `index` and `tail` as byte-offset
  arithmetic.
- `Vectors` (vector.dfy): the `Vector` class. Its fields are `volume`,
  `length` and the slot array `data`. Its methods are the operations. A
  relocation by realloc is a fresh `data` array; NULL is a `Status` other than
  `Ok`.
- `Search` (search.dfy): find, find_next, find_last and search.
- `Comparison` (comparison.dfy): `mx_vector_eq_z`/`ne_z` and
  `vector_eq_z`/`vector_eq_with_z`.

Where the documentation and the code disagree, the model follows the code:

- **The move example.** The example in `source/vector.h:341-345` (also in
  `source/vector/move.h:56-60`) shows `move(sample, 4, 2)` giving
  `{ 2, 4, 10, 6, 8, 12 }`. The code moves the element at index 2 to index 4,
  which gives `{ 2, 4, 8, 10, 6, 12 }`. `Rearrange.MoveDocExample` proves
  both orders: the printed one is the move from 4 to 2.
- **Errno from duplicate.** `source/vector.h:156` says a failed duplicate sets
  `errno` to ENOMEM. The code keeps whatever malloc left
  (`source/vector.c:78-82`), so `Duplicate` reports `Refused`, never
  `Overflow`.
- **The find_last documentation.** The doc at `source/vector/search.h:145-170`
  is copied from find_next and describes "at or after index i". The code scans
  the indices below `i`, downward.
- **Argument order in the iteration examples.** Both iteration examples
  (`source/vector/search.h:114-121` and `:155-163`) pass the arguments in an
  order that does not match the prototypes. The model follows the prototypes.

## Model

| member | source | states |
|---|---|---|
| Sizes.CheckedSizeExact | source/vector.c:147-151 | The checked multiply and then checked add on wrapped values succeed exactly when `count * z + sizeof(header_t)` fits in size_t, and then yield that size. |
| Sizes.AddOverflowWraps | source/vector.c:198-199 | The add-overflow pair is the sum reduced modulo 2^64, with the flag set exactly when reduction changed it. |
| Sizes.GrowthTargetWraps | source/vector.c:174-175 | The case-defined growth target equals the C expression `length / 5 * 8 + ((length % 5) * 8 + 3) / 5` evaluated with size_t wrap-around. |
| Sizes.GrowthTargetWrapCheck | source/vector/resize.h:147-151 | `volume > length` holds exactly when 1 <= length and (8 * length + 3) / 5 fits in size_t; then the target is exactly (8 * length + 3) / 5, so a wrapped target is never attempted. |
| Sizes.GrowthTargetHeadroom | source/vector.h:465-474 | An attempted target is about 1.6 times the length: 5 * target <= 8 * length + 3 and 8 * length <= 5 * target + 5. |
| Sizes.ShrinkThresholdWraps | source/vector.c:232 | The case-defined shrink trigger equals `(volume - 1) / 2` in size_t, where volume 0 wraps to SIZE_MAX. |
| Sizes.ShrinkTargetExact | source/vector.c:234-235 | The split shrink formula is exactly (6 * length + 4) / 5 and never below the length. |
| Sizes.ShrinkTargetBounds | source/vector/remove.h:175-181 | When the trigger fires, the target holds the new length, fits in size_t, is at most the volume, and is strictly less than a non-zero volume. |
| Allocation.Allocator.Request | source/vector.c:46 | A request is logged with its byte size and is granted exactly when the script's next entry is not a refusal; the script advances by one. |
| Rearrange.InjectedAt | source/vector.c:204-214 | After an inject, elements before i stay, the gap holds the new elements, and later elements move up by the gap's length. |
| Rearrange.ExcisedAt | source/vector.c:226-230 | After an excise, elements before i stay and later elements move down by n. |
| Rearrange.ExciseUndoesInject | source/vector/remove.h:166-188 | Excising the n elements just injected at i restores the original sequence. |
| Rearrange.InjectUndoesExcise | source/vector/remove.h:166-188 | Injecting back the excised elements restores the original sequence. |
| Rearrange.ExciseEdges | source/vector/remove.h:190-193 | Excising nothing changes nothing; excising all from index 0 empties the vector. |
| Rearrange.InjectExciseMultiset | source/vector.c:194-245 | Inject adds exactly the injected elements to the multiset; excise removes exactly the excised ones. |
| Rearrange.SwapInvolution | source/vector/move.c:27-38 | Swapping twice restores the sequence, and swapping an index with itself is the identity. |
| Rearrange.SwapPermutes | source/vector/move.c:27-38 | A swap permutes the elements. |
| Rearrange.MovedIsReinsertion | source/vector/move.h:116-127 | Moving from source to target equals removing the element at source and reinserting it at target. Excising the target afterwards gives the sequence without the source element. A move permutes. |
| Rearrange.ReinsertionAt | source/vector/move.h:116-127 | The reinsertion characterisation at a single index. |
| Rearrange.ReinsertionMultiset | source/vector/move.h:116-127 | Reinserting a removed element restores the multiset. |
| Rearrange.MovedFrame | source/vector.c:130-132 | A move to the same index is the identity; the moved element lands at target; indices outside the moved range keep their element. |
| Rearrange.MoveStepDown | source/vector.c:134-136 | One swap of the downward loop moves the element one place further toward target. |
| Rearrange.MoveStepUp | source/vector.c:137-139 | One swap of the upward loop moves the element one place further toward target. |
| Rearrange.MoveDocExample | source/vector.h:341-345 | On { 2, 4, 6, 8, 10, 12 }, move(4, 2) gives { 2, 4, 8, 10, 6, 12 }; the documented result is move(2, 4). |
| Addressing.Tail | source/vector.h:643-655 | The address of the last slot is z bytes before the end of the length * z data bytes. |
| Addressing.IndexOfAt | source/vector.h:193-197 | index(at(i)) == i for every non-zero element size. |
| Addressing.AtOfIndex | source/vector.h:226-230 | at(index(e)) == e for every address e at the start of a slot. |
| Addressing.IndexOfInterior | source/vector/access.c:8-11 | An address inside slot i still maps to i, because the division floors. |
| Addressing.AtInBounds | source/vector.h:204-213 | Slot i of a vector with i < length lies within its length * z data bytes. |
| Vectors.NewSlots | source/vector.c:153 | A fresh allocation of count z-byte slots whose first slots hold the surviving prefix. |
| Vectors.InjectSlots | source/vector.c:204-211 | The memmove of the tail n slots up, then the optional memcpy, leave the first L + n slots as the old elements with the new ones injected at i. Without elements the prefix and shifted tail are still stated. |
| Vectors.ExciseSlots | source/vector.c:226-230 | The memmove down leaves the first L - n slots as the old elements with [i, i + n) removed. |
| Vectors.Vector.Create | source/vector/create.h:93-102 | One request of sizeof(header_t); on a grant, an empty vector (volume 0, length 0) that is valid for every element size; on refusal, NULL with malloc's errno. |
| Vectors.Vector.Import | source/vector/create.h:104-117 | An overflowing header add fails with ENOMEM before allocating. Otherwise one request of length * z + header bytes; on success volume == length and the elements are the first length of data. |
| Vectors.Vector.Duplicate | source/vector.c:72-92 | The first request asks for the source's volume. Only when it is refused and length != volume does a second request ask for the length. Success happens exactly when one is granted. The copy has the matching volume and the same elements. |
| Vectors.Vector.Resize | source/vector/resize.h:116-133 | An overflowing size fails with ENOMEM and no request. Otherwise one request of volume * z + header bytes. On a grant: the new volume, the length clamped to it, the elements truncated to the new length, and the surviving slots kept. On failure nothing changes. |
| Vectors.Vector.Shrink | source/vector/resize.h:135-141 | One request for length * z + header bytes; the elements never change; the volume becomes the length on a grant and stays otherwise. |
| Vectors.Vector.Ensure | source/vector.c:170-187 | No request and success when the volume suffices. Otherwise the status, the byte sizes requested in order and the volume are given by the allocator script: the headroom target (length * 8 + 3) / 5 is requested when it exceeds length and its size fits, and kept when granted; if it was skipped or refused, exactly length is requested, ENOMEM arises when its size overflows, and the result is malloc's. On success the elements are unchanged; on failure nothing changes. |
| Vectors.EnsureOutcome | source/vector.h:462-474 | What ensure's outcome functions promise: a success leaves a volume of at least length, either exactly length or the headroom target above it; ENOMEM exactly when the volume is short, the target was not obtained and the size of length elements overflows; success whenever that size fits and the allocator grants two requests; at most two requests, none when the volume suffices. |
| Vectors.Vector.Inject | source/vector.c:194-217 | A length overflow fails with ENOMEM and no request. When the new length fits a size_t, the status, the sizes requested and the volume are those of ensure for it (old length + n). When the volume already holds the new length no request is made and the call succeeds. On failure nothing changes. On success the length grows by n, the elements before i and after the gap are the old ones, and with elements given the result is the old sequence with them injected at i. |
| Vectors.Vector.OpenGap | source/vector.c:204-214 | With room for n more, the tail moves up n slots, the new elements land at i, and the length grows by n. |
| Vectors.Vector.ShiftAndCopy | source/vector.c:204-211 | The memmove and optional memcpy leave the first length + n slots as the old elements around a gap at i, holding the new elements when given; slots stay z bytes wide. |
| Vectors.Vector.Insert | source/vector.c:189-192 | Inject of one element: ENOMEM when the length is SIZE_MAX; when the new length fits a size_t, the status, the sizes requested and the volume are those of ensure for it (old length + 1); certain success with no request when the volume holds one more; on success the element is at i with the old elements around it; on failure nothing changes. |
| Vectors.Vector.Append | source/vector.c:252-254 | Inject of one element at the end: ENOMEM when the length is SIZE_MAX; when the new length fits a size_t, the status, the sizes requested and the volume are those of ensure for it (old length + 1); certain success with no request when the volume holds one more; on success the old elements followed by it; on failure nothing changes. |
| Vectors.Vector.Extend | source/vector.c:256-259 | Inject of n elements at the end: ENOMEM when the length overflows; when the new length fits a size_t, the status, the sizes requested and the volume are those of ensure for it (old length + n); certain success with no request when the volume holds them; on success the old elements followed by the first n given; on failure nothing changes. |
| Vectors.Vector.EnsureThenInsert | source/vector.h:472-474 | After a successful ensure to a length, an insert keeping the length within it succeeds, and places the element at i. |
| Vectors.Vector.Excise | source/vector/remove.h:166-188 | The elements are the old ones with [i, i + n) removed. When the new length is at most (volume - 1) / 2, one request for the shrink target is made and the volume follows its grant. Otherwise no request is made and the volume stays. Excise never fails. |
| Vectors.Vector.CloseGap | source/vector/remove.h:169-173 | After the memmove, the first length - n slots are the old elements with the range removed. |
| Vectors.Vector.Settle | source/vector/remove.h:175-185 | The conditional shrink request and the length update, keeping the first length slots. |
| Vectors.Vector.Remove | source/vector/remove.h:162-164 | The element at i is removed and the rest keep their order. When the new length is at most (volume - 1) / 2 one request for the shrink target is made and the volume follows its grant; otherwise no request is made and the volume stays. |
| Vectors.Vector.Truncate | source/vector/remove.h:190-193 | The elements become the first length of the old ones. When the new length is at most (volume - 1) / 2 one request for the shrink target is made and the volume follows its grant; otherwise no request is made and the volume stays. |
| Vectors.Vector.Get | source/vector/access.h:70-76 | The destination location receives slot i and nothing else in its array changes (destination not slot i itself). |
| Vectors.Vector.Set | source/vector/access.h:78-84 | Slot i receives the bytes at the source location and no other slot changes (source not slot i itself). |
| Vectors.Vector.SetThenGet | source/vector/access.h:59 | set followed by get at the same index delivers the written element: get is the inverse of set. |
| Vectors.Vector.GetGuarded | source/vector/access.c:13-19 | The same as get for any destination; copying slot i onto itself changes nothing. |
| Vectors.Vector.SetGuarded | source/vector/access.c:21-28 | The same as set for any source; copying slot i onto itself changes nothing. |
| Vectors.Vector.Pull | source/vector.c:265-269 | The last element is copied to the destination when one is given, then removed. When the new length is at most (volume - 1) / 2 one request for the shrink target is made and the volume follows its grant; otherwise no request is made and the volume stays. |
| Vectors.Vector.Shift | source/vector.c:271-275 | The first element is copied to the destination when one is given, then removed. When the new length is at most (volume - 1) / 2 one request for the shrink target is made and the volume follows its grant; otherwise no request is made and the volume stays. |
| Vectors.Vector.Swap | source/vector/move.c:27-38 | The byte-by-byte exchange through a one-byte buffer leaves the slots swapped. |
| Vectors.Vector.Move | source/vector/move.c:13-25 | The chain of adjacent swaps yields the moved sequence, both for all slots and for the elements. |
| Vectors.Vector.SwapDown | source/vector/move.c:18-20 | For target < source, the downward loop of swaps leaves the slots moved from source to target. |
| Vectors.Vector.SwapUp | source/vector/move.c:21-23 | For source < target, the upward loop of swaps leaves the slots moved from source to target. |
| Vectors.Vector.StepDown | source/vector/move.c:19-20 | One downward swap carries the moved element from slot at to slot at - 1. |
| Vectors.Vector.StepUp | source/vector/move.c:22-23 | One upward swap carries the moved element from slot at to slot at + 1. |
| Vectors.SpliceStep | source/vector/move.c:33-36 | Exchanging byte k extends the exchanged prefix of each slot by one byte. |
| Search.NextMatchIsFirst | source/vector/search.h:63-87 | find_next's result is the first matching index at or after i; SIZE_MAX exactly when none matches there. |
| Search.PrevMatchIsLast | source/vector/search.c:31-42 | find_last's result is the last matching index below i; SIZE_MAX exactly when none matches below i. |
| Search.NextMatchPastEnd | source/vector/search.c:24-28 | From an index at or past the length nothing is found. |
| Search.FindNext | source/vector/search.c:18-29 | The bound-checked loop returns the first match at or after i, for any i. |
| Search.Find | source/vector/search.c:10-16 | find is find_next from 0: the first match in the vector. |
| Search.FindNextDoWhile | source/vector/search.h:216-227 | For i an index of the vector, the do-while loop returns the first match at or after i. |
| Search.FindDoWhile | source/vector/search.h:208-214 | For a non-empty vector, the do-while find returns the first match. |
| Search.FindLast | source/vector/search.h:229-240 | The downward loop returns the last match below i. |
| Search.DoWhileAgreesInBounds | source/vector/search.h:222-225 | For an index below the length, the loop as written agrees with the first-match meaning. |
| Search.DoWhileReadsPastEnd | source/vector/search.h:222-225 | From a start at or past the length, the loop as written returns i when the stale slot i matches, where SIZE_MAX is meant. |
| Search.FindOnEmptyVector | source/vector/search.h:208-227 | find on an empty vector with one stale matching slot returns 0 instead of SIZE_MAX. |
| Search.FindLastFromAbsentReadsOutside | source/vector/search.h:155-163 | For a non-zero element size, the SIZE_MAX start of the documented reverse iteration exceeds the length. The first slot that find_last reads then lies beyond the allocation. |
| Search.FindLastClamped | source/vector/search.c:31-42 | find_last with its start clamped to the length accepts any i. From SIZE_MAX it returns the last match in the vector, or SIZE_MAX when there is none. |
| Search.SearchLeftmost | source/vector.c:323-336 | SIZE_MAX when bsearch finds nothing. Otherwise, with the hit address turned into a slot by index, the result is at most that slot, every element from it up to the slot compares equal, and the one before it does not. For a sorted vector no earlier element compares equal. |
| Comparison.EqWith | header/vector/comparison.c:31-47 | True exactly when the lengths agree and eq holds on every pair. eq is called on pairs in order and stops after the first false. |
| Comparison.DataAsEqAllPairs | header/vector/comparison.c:17-20 | Through the adapter, equality with context is the two-argument equality on every pair. |
| Comparison.Eq | header/vector/comparison.c:22-29 | vector_eq_z is true exactly when the lengths agree and eq holds on every pair. |
| Comparison.MemcmpEquality | source/vector.c:285-286 | Without a callback the element test is byte equality: every vector equals itself, and two vectors are equal exactly when their elements are identical. |
| Comparison.MxEq | source/vector.c:277-291 | True exactly when the lengths agree and the element test holds on every pair. |
| Comparison.MxNe | source/vector.c:293-295 | The negation of mx_vector_eq_z. |

## Left out

- mx_vector_sort_z / vector_sort_z: qsort from the C library; its internals are not modelled.
- mx_vector_debug_z: output through fprintf.
- mx_vector_delete / vector_delete: free only ends the object's lifetime, which Dafny's heap does not model.
- mx_vector_volume / mx_vector_length and their vector_* forms: read as the fields `volume` and `length`.
- The implicit-interface macros (mx_vector_define, the element-size macros) and the source-generation tooling: they only supply `sizeof` and expand to the explicit operations.
- The macros at source/vector.h:580-581 and 599-600 and at source/vector/remove.h:132-133 expand to themselves; they are not operations.
- bsearch: SearchLeftmost takes the address bsearch returns as a parameter, with only what bsearch promises about it.
- Callbacks (eqf, cmpf) are pure functions; side effects of C callbacks are not modelled.
- The value of errno: only whether the vector set ENOMEM (`Overflow`) or left the allocator's errno (`Refused`).
- Slots that C leaves indeterminate are zero bytes, and the bytes that realloc keeps are kept per slot.
- memmove and memcpy act on whole slots, not bytes.
- A moved handle after realloc is a fresh `data` array; pointers into the old storage are not modelled.
- The test suites are not modelled.
- Vectors.Vector.Get: requires only that the destination is not slot i (the restrict rule of the code). The mx_vector_get documentation forbids any location in the vector.
- Vectors.Vector.Set: the same for the source location.
- Vectors.Vector.Pull: requires the destination to lie outside the vector, as the documentation of mx_vector_get (which pull calls) demands.
- Vectors.Vector.Shift: the same.
- Search.FindDoWhile: requires a non-empty vector, because the do-while loop reads slot 0 before any bound check (see Findings).
- Search.FindLast: requires i <= length; a larger i reads past the slots in C.
- Vectors.Vector.Inject: requires i <= length, as documented; the code does not check it.
- Vectors.Vector.Inject: the elements to inject are values read before the tail moves. In C the memcpy from `elmt` runs after the memmove (source/vector.c:204-211), and `elmt` is not `restrict`, so a source inside the vector's own slots reads the shifted slots. That aliasing is not modelled: for {a, b, c} with volume 4, insert(0, &slot 1) gives {a, a, b, c} in C, while the contract describes a copy of b injected at 0.
- Vectors.Vector.Insert: the same as inject, for a source element inside the vector.
- Vectors.Vector.Append: the same as inject, for a source element inside the vector.
- Vectors.Vector.Extend: the same as inject, for source elements inside the vector.
- Vectors.Vector.Excise: requires i + n <= length, as the code's arithmetic needs and truncate relies on. The documentation at source/vector/remove.h:73-74 asks every index up to i + n inclusive to be an index, which would forbid excising the tail.

## Findings

| source | as written | input that shows it | evidently intended | confidence | as-written member | corrected member |
|---|---|---|---|---|---|---|
| source/vector/search.h:222-225 | The `do`/`while` find_next calls eqf on slot i before comparing i with the length. | vector_find_z on a vector with volume 1 and length 0 whose stale slot 0 matches returns 0. The documented iteration (search.h:114-121) also reaches i == length once the last element matches. | Return SIZE_MAX when i is not below the length, as the `for` loop in source/vector/search.c:24-28 does. | not executed | Search.DoWhileReadsPastEnd, Search.FindOnEmptyVector | Search.FindNext, Search.NextMatchPastEnd |
| source/vector/search.h:155-163 | The documented reverse iteration starts find_last from SIZE_MAX, and `while (i-- > 0)` then reads slot SIZE_MAX - 1. | Any vector with a non-zero element size: SIZE_MAX exceeds its length and slot SIZE_MAX - 1 exceeds its allocation. | Start from the length, i.e. from the last element. | not executed | Search.FindLastFromAbsentReadsOutside | Search.FindLastClamped |
