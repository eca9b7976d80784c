/** The C heap as the data block sees it: realloc may fail, and every buffer is either live or not. */
module Memory {
  import opened Bytes

  class Heap {
    ghost var live: set<array<byte>>  // buffers allocated and not yet freed
    ghost var failures: nat           // how many allocations failed so far

    constructor ()
      ensures live == {} && failures == 0
    {
      live, failures := {}, 0;
    }

    /** A request for n bytes that, when it succeeds, takes over the contents of oldBuf and releases it.
        When it fails nothing changes: oldBuf stays live. */
    method DbAlloc(n: nat, oldBuf: array?<byte>) returns (buf: array?<byte>)
      requires n > 0
      requires oldBuf == null || oldBuf in live
      modifies this
      ensures buf == null ==> live == old(live) && failures == old(failures) + 1
      ensures buf != null ==>
                && fresh(buf) && buf.Length == n && failures == old(failures)
                && live == old(live) - {oldBuf} + {buf}
                && (oldBuf != null ==> forall i :: 0 <= i < n && i < oldBuf.Length ==> buf[i] == oldBuf[i])
    {
      var granted: bool := *;
      if !granted {
        failures := failures + 1;
        return null;
      }
      var b := new byte[n];
      if oldBuf != null {
        Memcpy(b, 0, oldBuf, 0, Min(n, oldBuf.Length));
      }
      live := live - {oldBuf} + {b};
      buf := b;
    }

    /** free: only a live buffer may be released, and only once. */
    method Free(buf: array<byte>)
      requires buf in live
      modifies this
      ensures live == old(live) - {buf} && failures == old(failures)
    {
      live := live - {buf};
    }
  }
}
