/** The C heap as far as the addon uses it: strdup/strndup/malloc/new[] hand
    out a buffer, free/delete[] give it back. Pointers are handed out in
    increasing order, so "the buffers allocated since some point" is a range. */
module Memory {

  import opened Js

  type Ptr = nat

  /** The pointers in [lo, hi). */
  function Range(lo: nat, hi: nat): (r: set<Ptr>)
    ensures forall p :: p in r <==> lo <= p < hi
    decreases hi - lo
  {
    if lo >= hi then {} else {lo} + Range(lo + 1, hi)
  }

  class Allocator {
    /** Buffers allocated and not yet released. */
    var live: set<Ptr>
    /** The pointer the next allocation returns. */
    var next: nat

    ghost predicate Valid()
      reads this
    {
      forall p :: p in live ==> p < next
    }

    constructor ()
      ensures Valid() && live == {} && next == 0
    {
      live := {};
      next := 0;
    }

    /** strdup, strndup, malloc or new[]: a fresh buffer. */
    method Malloc() returns (p: Ptr)
      requires Valid()
      modifies this
      ensures Valid()
      ensures p == old(next) && next == old(next) + 1
      ensures live == old(live) + {p}
    {
      p := next;
      live := live + {p};
      next := next + 1;
    }

    /** free or delete[] of a live buffer. */
    method Free(p: Ptr)
      requires Valid() && p in live
      modifies this
      ensures Valid()
      ensures live == old(live) - {p} && next == old(next)
    {
      live := live - {p};
    }

    /** free of a pointer that may be NULL: free(NULL) does nothing. */
    method FreeNullable(p: Option<Ptr>)
      requires Valid() && (p.Some? ==> p.value in live)
      modifies this
      ensures Valid()
      ensures live == (if p.Some? then old(live) - {p.value} else old(live))
      ensures next == old(next)
    {
      if p.Some? {
        Free(p.value);
      }
    }
  }
}
