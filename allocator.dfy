/**
 * The platform allocator (malloc/realloc) as an oracle that may refuse.
 *
 * Its answers are scripted in advance, one per request, the way the
 * repository's tests interpose malloc/realloc with an array of errno values; once the
 * script runs out every request is granted. Each request's byte size is
 * logged so that contracts can say which allocations an operation attempted.
 */
module Allocation {

  /** Whether the next request under `script` is granted (true in the script means refuse). */
  function Grants(script: seq<bool>): bool
  {
    script == [] || !script[0]
  }

  /** The script left after one request. */
  function Advance(script: seq<bool>): (rest: seq<bool>)
    ensures |rest| <= |script|
    ensures script != [] ==> |rest| == |script| - 1
  {
    if script == [] then [] else script[1..]
  }

  class Allocator {
    /** The answers to come, consumed one per request: true refuses the request. */
    var refusals: seq<bool>
    /** The byte sizes requested so far, in order. */
    var requests: seq<nat>

    constructor (script: seq<bool>)
      ensures refusals == script && requests == []
    {
      refusals := script;
      requests := [];
    }

    /** One malloc or realloc of `size` bytes: granted or refused by the script. */
    method Request(size: nat) returns (granted: bool)
      modifies this
      ensures granted == Grants(old(refusals))
      ensures refusals == Advance(old(refusals))
      ensures requests == old(requests) + [size]
    {
      granted := Grants(refusals);
      refusals := Advance(refusals);
      requests := requests + [size];
    }
  }
}
