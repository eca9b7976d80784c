/** Bytes and the C library calls that write them. */
module Bytes {

  type byte = bv8

  datatype Option<+T> = None | Some(value: T)

  function Repeat(v: byte, n: nat): (r: seq<byte>)
    ensures |r| == n
    ensures forall i :: 0 <= i < n ==> r[i] == v
  {
    seq(n, _ => v)
  }

  function Min(a: nat, b: nat): nat {
    if a <= b then a else b
  }

  /** b with the cells from d on overwritten by x. */
  function Blit(b: seq<byte>, d: nat, x: seq<byte>): (r: seq<byte>)
    requires d + |x| <= |b|
    ensures |r| == |b|
    ensures forall i {:trigger r[i]} :: 0 <= i < |b| ==> r[i] == if d <= i < d + |x| then x[i - d] else b[i]
  {
    seq(|b|, i requires 0 <= i < |b| => if d <= i < d + |x| then x[i - d] else b[i])
  }

  /** memcpy between two distinct buffers. */
  method Memcpy(dst: array<byte>, d: nat, src: array<byte>, s: nat, n: nat)
    requires dst != src
    requires d + n <= dst.Length && s + n <= src.Length
    modifies dst
    ensures forall i :: 0 <= i < dst.Length ==> dst[i] == if d <= i < d + n then src[s + i - d] else old(dst[i])
  {
    for k := 0 to n
      invariant forall i :: 0 <= i < dst.Length ==> dst[i] == old(if d <= i < d + k then src[s + i - d] else dst[i])
    {
      dst[d + k] := src[s + k];
    }
  }

  /** memcpy inside one buffer: the C standard demands disjoint ranges, and so does this method. */
  method MemcpyWithin(a: array<byte>, d: nat, s: nat, n: nat)
    requires d + n <= a.Length && s + n <= a.Length
    requires d + n <= s || s + n <= d
    modifies a
    ensures forall i :: 0 <= i < a.Length ==> a[i] == old(if d <= i < d + n then a[s + i - d] else a[i])
  {
    for k := 0 to n
      invariant forall i :: 0 <= i < a.Length ==> a[i] == old(if d <= i < d + k then a[s + i - d] else a[i])
    {
      a[d + k] := a[s + k];
    }
  }

  /** memmove inside one buffer: the ranges may overlap. */
  method Memmove(a: array<byte>, d: nat, s: nat, n: nat)
    requires d + n <= a.Length && s + n <= a.Length
    modifies a
    ensures forall i :: 0 <= i < a.Length ==> a[i] == old(if d <= i < d + n then a[s + i - d] else a[i])
  {
    if d <= s {
      for k := 0 to n
        invariant forall i :: 0 <= i < a.Length ==> a[i] == old(if d <= i < d + k then a[s + i - d] else a[i])
      {
        a[d + k] := a[s + k];
      }
    } else {
      for k := n downto 0
        invariant forall i :: 0 <= i < a.Length ==> a[i] == old(if d + k <= i < d + n then a[s + i - d] else a[i])
      {
        a[d + k] := a[s + k];
      }
    }
  }

  method Memset(a: array<byte>, d: nat, v: byte, n: nat)
    requires d + n <= a.Length
    modifies a
    ensures forall i :: 0 <= i < a.Length ==> a[i] == if d <= i < d + n then v else old(a[i])
  {
    for k := 0 to n
      invariant forall i :: 0 <= i < a.Length ==> a[i] == old(if d <= i < d + k then v else a[i])
    {
      a[d + k] := v;
    }
  }
}
