/** DataBlock (engine/DataBlock.cpp, yateclass.h:6327): a byte buffer with separate length and capacity.
    Every operation is proved to act on the block's contents as one plain sequence operation, whatever the
    capacity, over-allocation and reallocation settings are and whichever allocations fail, and to hand the
    heap back every buffer it no longer holds. */
module Blocks {
  import opened Bytes
  import opened Memory
  import opened BlockMoves
  import opened HexText

  function Zeros(n: nat): seq<byte> {
    Repeat(0, n)
  }

  /** Insertion with the position clamped to the end. */
  function InsertedAt(s: seq<byte>, pos: nat, x: seq<byte>): seq<byte> {
    Inserted(s, Min(pos, |s|), x)
  }

  /** The first length cells of a buffer lose len of them; those behind move down. */
  method MoveDown(buf: array<byte>, length: nat, pos: nat, len: nat)
    requires 0 < len && pos + len <= length <= buf.Length && length < INT_LIMIT
    modifies buf
    ensures buf[..length - len] == old(buf[..pos]) + old(buf[pos + len..length])
  {
    var lastRemoveIdx := pos + len;
    if lastRemoveIdx < length {
      ghost var b := buf[..];
      MoveData(buf, length, length - lastRemoveIdx, pos, lastRemoveIdx);
      MovedDown(b, buf[..], length, pos, len);
      assert buf[..length - len] == buf[..][..length - len];
    }
  }

  lemma MovedDown(b: seq<byte>, after: seq<byte>, length: nat, pos: nat, n: nat)
    requires 0 < n && pos + n < length <= |b|
    requires after == Moved(b, length, length - pos - n, pos, pos + n, None)
    ensures after[..length - n] == b[..pos] + b[pos + n..length]
  {
    RemoveInPlaceOrRebuilt(b, b, b[..length], pos, n);
    assert b[..length][..pos] == b[..pos] && b[..length][pos + n..] == b[pos + n..length];
  }

  lemma InsertNothing(s: seq<byte>, pos: nat, x: seq<byte>)
    requires |x| == 0
    ensures InsertedAt(s, pos, x) == s
  {
  }

  /** Insertion, part by part. */
  lemma InsertedParts(s: seq<byte>, pos: nat, x: seq<byte>, v: byte, extra: nat)
    ensures var p := if pos > |s| then |s| else pos;
            InsertedAt(s, pos, x + Repeat(v, extra)) == s[..p] + x + Repeat(v, extra) + s[p..]
  {
  }

  lemma NothingChanges(s: seq<byte>, pos: nat, x: seq<byte>, v: byte, extra: nat)
    requires |x| == 0 && extra == 0
    ensures InsertedAt(s, pos, x + Repeat(v, extra)) == s
    ensures var p := if pos > |s| then |s| else pos; s == s[..p] + x + Repeat(v, extra) + s[p..]
  {
  }

  /** Removal, byte by byte. */
  lemma CutCells(s: seq<byte>, pos: nat, len: nat)
    ensures var r, n := CutOut(s, pos, len), if pos >= |s| then 0 else if len > |s| - pos then |s| - pos else len;
            |r| == |s| - n && forall i :: 0 <= i < |r| ==> r[i] == if i < pos then s[i] else s[i + n]
  {
  }

  /** Removal of as much of [pos, pos + len) as exists. */
  function CutOut(s: seq<byte>, pos: nat, len: nat): seq<byte> {
    if pos >= |s| then s else Removed(s, pos, Min(len, |s| - pos))
  }

  /** The contents after resize; ok tells whether the memory it asked for was granted. */
  function Resized(s: seq<byte>, len: nat, keepData: bool, ok: bool): seq<byte> {
    if len == |s| then s
    else if keepData && len < |s| then s[..len]
    else if len == 0 then []
    else if keepData then if ok then s + Zeros(len - |s|) else s
    else if ok then Zeros(len) else []
  }

  /** The capacity asked for when len bytes must fit. */
  function AllocLen(len: nat, overAlloc: nat): nat {
    var over := (8 - len % 8) % 8;
    if over < overAlloc then (len + overAlloc + 7) / 8 * 8 else len + over
  }

  /** Both branches give the least multiple of 8 that holds len and the over-allocation. */
  lemma AllocLenIsLeast(len: nat, overAlloc: nat, m: nat)
    ensures var a := AllocLen(len, overAlloc);
            && a % 8 == 0 && len + overAlloc <= a < len + overAlloc + 8
            && (m % 8 == 0 && len + overAlloc <= m ==> a <= m)
  {
    var over := (8 - len % 8) % 8;
    if over < overAlloc {
      RoundedUp(len + overAlloc);
      LeastMultiple((len + overAlloc + 7) / 8 * 8, len + overAlloc, m);
    } else {
      FilledUp(len);
      LeastMultiple(len + over, len + overAlloc, m);
    }
  }

  /** Whether change asks for memory, on n bytes in a buffer of cap: for the first bytes, when the capacity is exceeded,
      and always when the bytes inserted may overlap the block. */
  predicate ChangeAsks(n: nat, cap: nat, added: nat, overlap: bool) {
    added > 0 && (n == 0 || overlap || n + added > cap)
  }

  function ChangedCapacity(n: nat, cap: nat, added: nat, overAlloc: nat): nat {
    if added > 0 && (n == 0 || n + added > cap) then AllocLen(n + added, overAlloc) else cap
  }

  /** Whether assigning zeros asks for memory: not in a buffer of just the size that would be asked for. */
  predicate ZeroingAsks(n: nat, cap: nat, len: nat, overAlloc: nat) {
    len > 0 && (n == 0 || AllocLen(len, overAlloc) != cap)
  }

  /** Whether cut, leaving `left` of n bytes, asks for memory. */
  predicate CutAsks(n: nat, cap: nat, left: nat, reAlloc: bool, overAlloc: nat) {
    0 < left < n && reAlloc && AllocLen(left, overAlloc) != cap
  }

  function CutCapacity(n: nat, cap: nat, left: nat, reAlloc: bool, overAlloc: nat, ok: bool): nat {
    if left >= n then cap else if left == 0 then 0 else if reAlloc && ok then AllocLen(left, overAlloc) else cap
  }

  predicate ResizeAsks(n: nat, cap: nat, len: nat, keepData: bool, reAlloc: bool, overAlloc: nat) {
    if len == n || len == 0 then false
    else if keepData then
      if len < n then CutAsks(n, cap, len, reAlloc, overAlloc) else ChangeAsks(n, cap, len - n, false)
    else (reAlloc || n == 0 || len > cap) && ZeroingAsks(n, cap, len, overAlloc)
  }

  function ResizedCapacity(n: nat, cap: nat, len: nat, keepData: bool, reAlloc: bool, overAlloc: nat, ok: bool): nat {
    if len == n then cap
    else if len == 0 then 0
    else if keepData then
      if len < n then CutCapacity(n, cap, len, reAlloc, overAlloc, ok)
      else if ok then ChangedCapacity(n, cap, len - n, overAlloc) else cap
    else if !reAlloc && n > 0 && len <= cap then cap
    else if ok then AllocLen(len, overAlloc) else 0
  }

  /** What the over-allocation is for: in a buffer just sized for len bytes up to overAlloc more can be added without
      asking for memory, and no more than 7 beyond that. */
  lemma OverAllocServes(len: nat, overAlloc: nat, added: nat)
    requires 0 < len
    ensures added <= overAlloc ==> !ChangeAsks(len, AllocLen(len, overAlloc), added, false)
    ensures added >= overAlloc + 8 ==> ChangeAsks(len, AllocLen(len, overAlloc), added, false)
  {
    AllocLenIsLeast(len, overAlloc, 0);
  }

  lemma FilledUp(n: nat)
    ensures var over := (8 - n % 8) % 8; over < 8 && (n + over) % 8 == 0
  {
  }

  lemma LeastMultiple(a: nat, n: nat, m: nat)
    requires a % 8 == 0 && n <= a < n + 8
    ensures m % 8 == 0 && n <= m ==> a <= m
  {
    assert a == 8 * (a / 8) && m == 8 * (m / 8) + m % 8;
  }

  lemma RoundedUp(n: nat)
    ensures var a := (n + 7) / 8 * 8; a % 8 == 0 && n <= a < n + 8
  {
  }

  /** The first part of an insertion: s has been spread around a gap of `added` unspecified bytes. */
  ghost predicate Opened(b: seq<byte>, s: seq<byte>, p: nat, added: nat)
  {
    && p <= |s| && |s| + added <= |b|
    && (forall i :: 0 <= i < p ==> b[i] == s[i])
    && (forall i :: p + added <= i < |s| + added ==> b[i] == s[i - added])
  }

  lemma MovedOpens(b: seq<byte>, s: seq<byte>, p: nat, added: nat)
    requires p < |s| && 0 < added && |s| + added <= |b| && s <= b
    ensures Opened(Moved(b, |s| + added, |s| - p, p + added, p, None), s, p, added)
  {
  }

  lemma RebuiltOpens(b: seq<byte>, s: seq<byte>, p: nat, added: nat)
    requires p <= |s| && 0 < added && |s| + added <= |b|
    ensures Opened(RebuiltInsert(b, |s| + added, s, p, added, None), s, p, added)
  {
  }

  /** The second part: the gap receives x and then n bytes v. */
  lemma GapFilled(b: seq<byte>, filled: seq<byte>, s: seq<byte>, p: nat, x: seq<byte>, v: byte, n: nat)
    requires Opened(b, s, p, |x| + n) && |filled| == |b|
    requires forall i :: 0 <= i < |b| ==>
      filled[i] == if p <= i < p + |x| then x[i - p] else if p + |x| <= i < p + |x| + n then v else b[i]
    ensures filled[..|s| + |x| + n] == Inserted(s, p, x + Repeat(v, n))
  {
  }

  /** What changeHex reports and what it does to the contents, given what the text means and whether an
      allocation failed. */
  ghost predicate HexDone(text: Outcome, failed: bool, emptyOk: bool, pos: nat, before: seq<byte>, ok: bool, res: int,
                          after: seq<byte>)
  {
    if failed then !ok && res == -1 && after == before && (text.Spelled? || text.InvalidFormat?)
    else match text
      case Spelled(b) => ok && res == |b| > 0 && after == InsertedAt(before, pos, b)
      case Empty => ok == emptyOk && res == 0 && after == before
      case InvalidFormat => !ok && res == -2 && after == before
      case InvalidLength => !ok && res == -3 && after == before
  }

  class DataBlock {
    const heap: Heap
    var data: array?<byte>
    var length: nat
    var capacity: nat
    var overAlloc: nat

    /** No data exactly when empty; otherwise the length fits the capacity and the buffer is live. */
    ghost predicate Valid()
      reads this, heap
    {
      if data == null then length == 0 && capacity == 0
      else 0 < length <= capacity <= data.Length && data in heap.live
    }

    ghost function Contents(): (s: seq<byte>)
      requires Valid()
      reads this, heap, data
      ensures |s| == length
    {
      if data == null then [] else data[..length]
    }

    ghost function Owned(): set<array<byte>>
      reads this
    {
      if data == null then {} else {data}
    }

    /** Room for a length of n, with the over-allocation and the rounding. */
    ghost predicate Fits(n: nat)
      reads this
    {
      n + overAlloc + 8 < INT_LIMIT
    }

    constructor (heap: Heap, overAlloc: nat)
      ensures Valid() && Contents() == [] && this.heap == heap && this.overAlloc == overAlloc
    {
      this.heap := heap;
      data, length, capacity, this.overAlloc := null, 0, 0, overAlloc;
    }

    method Clear(deleteData: bool := true)
      requires data != null && deleteData ==> data in heap.live
      modifies this, heap
      ensures Valid() && Contents() == [] && overAlloc == old(overAlloc)
      ensures heap.failures == old(heap.failures)
      ensures heap.live == if deleteData then old(heap.live) - old(Owned()) else old(heap.live)
    {
      length := 0;
      capacity := 0;
      if data != null {
        var d := data;
        data := null;
        if deleteData {
          heap.Free(d);
        }
      }
    }

    /** The part of assign that copies to a new buffer. */
    method CopyToNew(value: array?<byte>, len: nat, size: nat) returns (d: array?<byte>)
      requires value != null ==> len <= value.Length
      requires 0 < len <= size
      modifies heap
      ensures d == null ==> heap.live == old(heap.live) && heap.failures == old(heap.failures) + 1
      ensures d != null ==>
                && fresh(d) && d.Length == size
                && heap.live == old(heap.live) + {d} && heap.failures == old(heap.failures)
                && d[..len] == old(if value == null then Zeros(len) else value[..len])
    {
      d := heap.DbAlloc(size, null);
      if d != null {
        if value != null {
          Memcpy(d, 0, value, 0, len);
        } else {
          Memset(d, 0, 0, len);
        }
      }
    }

    /** Copy len bytes of value (zeros when there is no value), or adopt value itself as the buffer. The value may be
        the block's own buffer, of which another length is then kept or copied. */
    method Assign(value: array?<byte>, len: nat, copyData: bool := true, given: nat := 0)
      requires Valid()
      requires value != null ==> len <= value.Length
      requires value != null && !copyData ==> value in heap.live && given <= value.Length
      requires Fits(len)
      modifies this, heap, data
      ensures Valid() && overAlloc == old(overAlloc)
      ensures heap.live == old(heap.live) - old(Owned()) + Owned()
      ensures data == null || data == old(data) || fresh(data) || (!copyData && data == value)
      ensures old(heap.failures) <= heap.failures <= old(heap.failures) + 1
      ensures heap.failures != old(heap.failures) ==>
                && copyData && len > 0 && Contents() == [] && capacity == 0
                && (value == null ==> ZeroingAsks(old(length), old(capacity), len, overAlloc))
      ensures heap.failures == old(heap.failures) && copyData && (value != old(data) || len != old(length)) ==>
                capacity == if len == 0 then 0 else AllocLen(len, overAlloc)
      ensures value == null && copyData && len > 0 && !ZeroingAsks(old(length), old(capacity), len, overAlloc) ==>
                data == old(data)
      ensures heap.failures == old(heap.failures) ==>
                Contents() == if len == 0 || (value == null && !copyData) then []
                              else if value == null then Zeros(len)
                              else old(value[..len])
      ensures value != null && !copyData && len > 0 && (value != old(data) || len != old(length)) ==>
                data == value && capacity == if given < len then len else given
    {
      if value != data || len != length {
        var odata := data;
        var oldSize := capacity;
        length := 0;
        capacity := 0;
        data := null;
        if len != 0 {
          var size := given;
          if copyData {
            size := AllocLen(len, overAlloc);
            AllocLenIsLeast(len, overAlloc, 0);
            if size == oldSize && odata != null && value == null {
              data := odata;
              Memset(data, 0, 0, len);
            } else {
              data := CopyToNew(value, len, size);
            }
          } else {
            if size < len {
              size := len;
            }
            data := value;
          }
          if data != null {
            length := len;
            capacity := size;
          }
        }
        if odata != null && odata != data {
          heap.Free(odata);
        }
      }
    }

    /** Assign, as change and changeHex use it: hold another live buffer instead of the present one. */
    method Adopt(d: array<byte>, len: nat, size: nat)
      requires Valid() && d != data && d in heap.live && 0 < len <= size <= d.Length && Fits(len)
      modifies this, heap, data
      ensures Valid() && overAlloc == old(overAlloc)
      ensures data == d && length == len && capacity == size && d[..] == old(d[..])
      ensures heap.live == old(heap.live) - old(Owned()) && heap.failures == old(heap.failures)
    {
      Assign(d, len, false, size);
    }

    /** The part of change that opens a gap of `added` bytes at p: in a new buffer when the inserted bytes may
        overlap the block, in a reallocated one when the capacity is exceeded, in place otherwise. */
    method MakeRoom(p: nat, added: nat, overlap: bool) returns (ok: bool)
      requires Valid() && p <= length && 0 < added && Fits(length + added)
      modifies this, heap, data
      ensures Valid() && overAlloc == old(overAlloc)
      ensures heap.live == old(heap.live) - old(Owned()) + Owned()
      ensures data == old(data) || fresh(data)
      ensures if ok then heap.failures == old(heap.failures) && length == old(length) + added
                         && Opened(data[..], old(Contents()), p, added)
                         && capacity == ChangedCapacity(old(length), old(capacity), added, overAlloc)
                         && (data == old(data) <==> !ChangeAsks(old(length), old(capacity), added, overlap))
              else
                && heap.failures == old(heap.failures) + 1 && unchanged(this) && Contents() == old(Contents())
                && ChangeAsks(old(length), old(capacity), added, overlap)
    {
      if data == null || overlap || length + added > capacity {
        ok := MakeRoomInNew(p, added, overlap);
      } else {
        ghost var s := Contents();
        var newLen := length + added;
        if p < length {
          MovedOpens(data[..], s, p, added);
          MoveData(data, newLen, length - p, p + added, p);
        }
        length := newLen;
        ok := true;
      }
    }

    method MakeRoomInNew(p: nat, added: nat, overlap: bool) returns (ok: bool)
      requires Valid() && p <= length && 0 < added && Fits(length + added)
      modifies this, heap, data
      ensures Valid() && overAlloc == old(overAlloc)
      ensures heap.live == old(heap.live) - old(Owned()) + Owned()
      ensures if ok then heap.failures == old(heap.failures) && length == old(length) + added
                         && fresh(data) && Opened(data[..], old(Contents()), p, added)
                         && capacity == ChangedCapacity(old(length), old(capacity), added, overAlloc)
              else heap.failures == old(heap.failures) + 1 && unchanged(this) && Contents() == old(Contents())
    {
      ghost var s := Contents();
      var newLen := length + added;
      var aLen := if data == null || newLen > capacity then AllocLen(newLen, overAlloc) else capacity;
      AllocLenIsLeast(newLen, overAlloc, 0);
      assert aLen == ChangedCapacity(length, capacity, added, overAlloc);
      var d := heap.DbAlloc(aLen, if overlap then null else data);
      if d == null {
        return false;
      }
      Spread(d, s, p, added, overlap);
      Replace(d, newLen, aLen, overlap);
      ok := true;
    }

    /** The part of change that takes over the new buffer; the old one is freed unless realloc has freed it. */
    method Replace(d: array<byte>, len: nat, size: nat, overlap: bool)
      requires data != d && d in heap.live && 0 < len <= size <= d.Length && Fits(len)
      requires data == null || overlap ==> Valid()
      modifies this, heap
      ensures Valid() && overAlloc == old(overAlloc) && data == d && length == len && capacity == size
      ensures d[..] == old(d[..]) && heap.failures == old(heap.failures)
      ensures heap.live == if overlap then old(heap.live) - old(Owned()) else old(heap.live)
    {
      if data != null {
        Clear(overlap);
      }
      Adopt(d, len, size);
    }

    /** The part of change that spreads the old bytes around the gap in the new buffer d. */
    method Spread(d: array<byte>, ghost s: seq<byte>, p: nat, added: nat, overlap: bool)
      requires if data == null then length == 0 else data != d && length <= data.Length
      requires s == if data == null then [] else data[..length]
      requires p <= length && 0 < added && length + added <= d.Length && length + added < INT_LIMIT
      requires !overlap ==> s <= d[..]
      modifies d
      ensures Opened(d[..], s, p, added)
    {
      if data != null {
        if overlap {
          RebuiltOpens(d[..], s, p, added);
          RebuildDataInsert(d, length + added, data, length, p, added);
        } else if p < length {
          MovedOpens(d[..], s, p, added);
          MoveData(d, length + added, length - p, p + added, p);
        }
      }
    }

    lemma HoldsItsBuffer()
      requires Valid()
      ensures heap.live == heap.live - Owned() + Owned()
    {
    }

    /** Insert (or append) a buffer followed by extra filled bytes. */
    method Change(pos: nat, buf: array?<byte>, bufLen: nat, extra: nat := 0, extraVal: byte := 0,
                  mayOverlap: bool := true) returns (ok: bool)
      requires Valid()
      requires buf != null ==> buf != data && bufLen <= buf.Length
      requires Fits(length + (if buf == null then 0 else bufLen) + extra)
      modifies this, heap, data
      ensures Valid() && overAlloc == old(overAlloc)
      ensures heap.live == old(heap.live) - old(Owned()) + Owned()
      ensures data == old(data) || fresh(data)
      ensures old(heap.failures) <= heap.failures
      ensures ok <==> heap.failures == old(heap.failures)
      ensures Contents() == if !ok then old(Contents())
                            else InsertedAt(old(Contents()), pos,
                                            old(if buf == null then [] else buf[..bufLen]) + Repeat(extraVal, extra))
      ensures !ok ==> data == old(data) && heap.failures == old(heap.failures) + 1
      ensures ok ==> var s, p := old(Contents()), if pos > old(length) then old(length) else pos;
                     Contents() == s[..p] + old(if buf == null then [] else buf[..bufLen]) + Repeat(extraVal, extra)
                                   + s[p..]
      ensures old(data) != null && !(mayOverlap && buf != null && bufLen != 0)
              && old(length) + (if buf == null then 0 else bufLen) + extra <= old(capacity) ==>
                ok && data == old(data) && capacity == old(capacity)
      ensures var added := (if buf == null then 0 else bufLen) + extra;
              var overlap := buf != null && bufLen != 0 && mayOverlap;
              && (ok || ChangeAsks(old(length), old(capacity), added, overlap))
              && (ok ==> (data == old(data) <==> !ChangeAsks(old(length), old(capacity), added, overlap)))
              && capacity == if ok then ChangedCapacity(old(length), old(capacity), added, overAlloc) else old(capacity)
    {
      var added := (if buf != null then bufLen else 0) + extra;
      ghost var s := Contents();
      ghost var x := if buf == null then [] else buf[..bufLen];
      if added == 0 {
        NothingChanges(s, pos, x, extraVal, extra);
        HoldsItsBuffer();
        return true;
      }
      var src, srcLen := if bufLen != 0 then buf else null, if buf != null then bufLen else 0;
      var p := if pos > length then length else pos;
      var overlap := src != null && (mayOverlap || src == data);
      assert x == if src == null then [] else src[..srcLen];
      ok := MakeAndFill(p, src, srcLen, extra, extraVal, overlap, pos, x);
    }

    /** The part of change after the position and the source are settled. */
    method MakeAndFill(p: nat, src: array?<byte>, srcLen: nat, extra: nat, extraVal: byte, overlap: bool,
                       ghost pos: nat, ghost x: seq<byte>)
      returns (ok: bool)
      requires Valid() && p == (if pos > length then length else pos)
      requires 0 < srcLen + extra && Fits(length + srcLen + extra)
      requires if src == null then srcLen == 0 else src != data && srcLen <= src.Length
      requires x == if src == null then [] else src[..srcLen]
      modifies this, heap, data
      ensures Valid() && overAlloc == old(overAlloc)
      ensures heap.live == old(heap.live) - old(Owned()) + Owned()
      ensures heap.failures == old(heap.failures) + if ok then 0 else 1
      ensures if ok then
                && Contents() == InsertedAt(old(Contents()), pos, x + Repeat(extraVal, extra))
                && Contents() == old(Contents())[..p] + x + Repeat(extraVal, extra) + old(Contents())[p..]
                && capacity == ChangedCapacity(old(length), old(capacity), srcLen + extra, overAlloc)
                && (data == old(data) <==> !ChangeAsks(old(length), old(capacity), srcLen + extra, overlap))
              else
                && unchanged(this) && Contents() == old(Contents())
                && ChangeAsks(old(length), old(capacity), srcLen + extra, overlap)
      ensures data == old(data) || fresh(data)
    {
      ghost var s := Contents();
      ok := MakeRoom(p, srcLen + extra, overlap);
      if ok {
        FillRoom(s, p, src, srcLen, extra, extraVal);
        InsertedParts(s, pos, x, extraVal, extra);
      }
    }

    /** The part of change that writes the new bytes into the gap. */
    method FillRoom(ghost s: seq<byte>, p: nat, src: array?<byte>, srcLen: nat, extra: nat, extraVal: byte)
      requires Valid() && data != null && length == |s| + srcLen + extra
      requires if src == null then srcLen == 0 else src != data && srcLen <= src.Length
      requires Opened(data[..], s, p, srcLen + extra)
      modifies data
      ensures Contents() == Inserted(s, p, (if src == null then [] else src[..srcLen]) + Repeat(extraVal, extra))
    {
      ghost var b := data[..];
      if srcLen != 0 {
        Memcpy(data, p, src, 0, srcLen);
      }
      if extra != 0 {
        Memset(data, p + srcLen, extraVal, extra);
      }
      GapFilled(b, data[..], s, p, if src == null then [] else src[..srcLen], extraVal, extra);
    }

    /** Remove len bytes at pos. The outcome does not depend on whether a smaller buffer could be had. */
    method Cut(pos: nat, len: nat, reAlloc: bool := true)
      requires Valid() && Fits(length)
      modifies this, heap, data
      ensures Valid() && overAlloc == old(overAlloc)
      ensures heap.live == old(heap.live) - old(Owned()) + Owned()
      ensures data == null || data == old(data) || fresh(data)
      ensures old(heap.failures) <= heap.failures
      ensures Contents() == CutOut(old(Contents()), pos, len)
      ensures var n := if pos >= old(length) then 0 else if len > old(length) - pos then old(length) - pos else len;
              && length == old(length) - n
              && forall i :: 0 <= i < length ==> Contents()[i] == old(Contents())[if i < pos then i else i + n]
      ensures !reAlloc ==> heap.failures == old(heap.failures) && (length != 0 ==> data == old(data))
      ensures reAlloc && heap.failures == old(heap.failures) && 0 < length < old(length) ==>
                capacity == AllocLen(length, overAlloc)
      ensures heap.failures <= old(heap.failures) + 1
      ensures heap.failures == old(heap.failures) || CutAsks(old(length), old(capacity), length, reAlloc, overAlloc)
      ensures capacity == CutCapacity(old(length), old(capacity), length, reAlloc, overAlloc,
                                      heap.failures == old(heap.failures))
      ensures length != 0 && !CutAsks(old(length), old(capacity), length, reAlloc, overAlloc) ==> data == old(data)
    {
      ghost var s := Contents();
      CutCells(s, pos, len);
      if !(data != null && len != 0) || pos >= length {
        assert CutOut(s, pos, len) == s;
        return;
      }
      var n := len;
      if n > length - pos {
        n := length - pos;
        if n == 0 {
          return;
        }
      }
      var newLen := length - n;
      if newLen == 0 {
        Clear();
        return;
      }
      CutPart(pos, n, newLen, reAlloc);
    }

    /** The part of cut that keeps the buffer, because its size is right or a new one could not be had. */
    method CutInPlace(pos: nat, len: nat)
      requires Valid() && Fits(length) && 0 < len && pos + len <= length && len < length
      modifies this, data
      ensures Valid() && data == old(data) && capacity == old(capacity) && overAlloc == old(overAlloc)
      ensures Contents() == Removed(old(Contents()), pos, len)
    {
      assert data[..length][..pos] == data[..pos] && data[..length][pos + len..] == data[pos + len..length];
      MoveDown(data, length, pos, len);
      length := length - len;
    }

    /** The part of cut that removes some bytes but not all. */
    method CutPart(pos: nat, len: nat, newLen: nat, reAlloc: bool)
      requires Valid() && Fits(length) && 0 < len && pos + len <= length && newLen == length - len > 0
      modifies this, heap, data
      ensures Valid() && overAlloc == old(overAlloc)
      ensures heap.live == old(heap.live) - old(Owned()) + Owned()
      ensures data == old(data) || fresh(data)
      ensures old(heap.failures) <= heap.failures
      ensures Contents() == Removed(old(Contents()), pos, len)
      ensures heap.failures <= old(heap.failures) + 1
      ensures heap.failures == old(heap.failures) || CutAsks(old(length), old(capacity), newLen, reAlloc, overAlloc)
      ensures capacity == CutCapacity(old(length), old(capacity), newLen, reAlloc, overAlloc,
                                      heap.failures == old(heap.failures))
      ensures !CutAsks(old(length), old(capacity), newLen, reAlloc, overAlloc) ==> data == old(data)
    {
      ghost var s := Contents();
      var lastRemoveIdx := pos + len;
      var newSize := if reAlloc then AllocLen(newLen, overAlloc) else 0;
      AllocLenIsLeast(newLen, overAlloc, 0);
      var buf: array?<byte> := null;
      if newSize != 0 && newSize != capacity {
        buf := heap.DbAlloc(newSize, if lastRemoveIdx == length then data else null);
      }
      if buf == null {
        CutInPlace(pos, len);
        return;
      }
      if lastRemoveIdx < length {
        RemoveInPlaceOrRebuilt(s, buf[..], s, pos, len);
        RebuildDataRemove(buf, newLen, data, length, pos, len, Some(0));
        heap.Free(data);
      }
      data := buf;
      length := newLen;
      capacity := newSize;
    }

    method Resize(len: nat, keepData: bool := false, reAlloc: bool := true)
      requires Valid() && Fits(length) && Fits(len)
      modifies this, heap, data
      ensures Valid() && overAlloc == old(overAlloc)
      ensures heap.live == old(heap.live) - old(Owned()) + Owned()
      ensures data == null || data == old(data) || fresh(data)
      ensures old(heap.failures) <= heap.failures
      ensures Contents() == Resized(old(Contents()), len, keepData, heap.failures == old(heap.failures))
      ensures length == if len == old(length) || len == 0 || (keepData && len < old(length)) then len
                        else if heap.failures == old(heap.failures) then len
                        else if keepData then old(length) else 0
      ensures keepData || len == old(length) ==>
                forall i :: 0 <= i < length && i < old(length) ==> Contents()[i] == old(Contents())[i]
      ensures len != old(length) ==>
                forall i :: (if keepData then old(length) else 0) <= i < length ==> Contents()[i] == 0
      ensures !reAlloc && data != null && len <= old(capacity) ==>
                heap.failures == old(heap.failures) && data == old(data) && capacity == old(capacity)
      ensures heap.failures <= old(heap.failures) + 1
      ensures heap.failures == old(heap.failures) ||
              ResizeAsks(old(length), old(capacity), len, keepData, reAlloc, overAlloc)
      ensures capacity == ResizedCapacity(old(length), old(capacity), len, keepData, reAlloc, overAlloc,
                                          heap.failures == old(heap.failures))
      ensures len != 0 && !ResizeAsks(old(length), old(capacity), len, keepData, reAlloc, overAlloc) ==>
                data == old(data)
    {
      if len == length {
        return;
      }
      if len == 0 {
        Clear();
        return;
      }
      if !keepData {
        if !reAlloc && data != null && len <= capacity {
          Memset(data, 0, 0, len);
          length := len;
        } else {
          Assign(null, len);
        }
      } else if len < length {
        Truncate(len, reAlloc);
      } else {
        AppendBytes(len - length);
      }
    }

    /** The part of resize that keeps the data and drops some. */
    method Truncate(len: nat, reAlloc: bool)
      requires Valid() && Fits(length) && 0 < len < length
      modifies this, heap, data
      ensures Valid() && overAlloc == old(overAlloc)
      ensures heap.live == old(heap.live) - old(Owned()) + Owned()
      ensures data == null || data == old(data) || fresh(data)
      ensures old(heap.failures) <= heap.failures <= old(heap.failures) + 1
      ensures Contents() == old(Contents())[..len]
      ensures heap.failures == old(heap.failures) || CutAsks(old(length), old(capacity), len, reAlloc, overAlloc)
      ensures capacity == CutCapacity(old(length), old(capacity), len, reAlloc, overAlloc,
                                      heap.failures == old(heap.failures))
      ensures !CutAsks(old(length), old(capacity), len, reAlloc, overAlloc) ==> data == old(data)
    {
      ghost var s := Contents();
      Cut(len, length - len, reAlloc);
      assert CutOut(s, len, |s| - len) == s[..len];
    }

    /** Append zeros. */
    method AppendBytes(len: nat)
      requires Valid() && Fits(length + len)
      modifies this, heap, data
      ensures Valid() && overAlloc == old(overAlloc)
      ensures heap.live == old(heap.live) - old(Owned()) + Owned()
      ensures data == old(data) || fresh(data)
      ensures old(heap.failures) <= heap.failures <= old(heap.failures) + 1
      ensures Contents() == old(Contents()) + if heap.failures == old(heap.failures) then Zeros(len) else []
      ensures heap.failures == old(heap.failures) || ChangeAsks(old(length), old(capacity), len, false)
      ensures capacity == if heap.failures == old(heap.failures) then
                            ChangedCapacity(old(length), old(capacity), len, overAlloc)
                          else old(capacity)
      ensures !ChangeAsks(old(length), old(capacity), len, false) ==> data == old(data)
    {
      ghost var s, zeros := Contents(), Zeros(len);
      assert [] + zeros == zeros && InsertedAt(s, length, zeros) == s + zeros && s + [] == s;
      var _ := Change(length, null, 0, len, 0, false);
    }

    /** Insert the octets spelled by a hexadecimal text. The result code is the number of octets, 0 for an empty
        text, -1 when memory is missing, -2 for a malformed text and -3 for one of impossible length. */
    method ChangeHex(pos: nat, text: seq<byte>, sep: byte := 0, guessSep: bool := true, emptyOk: bool := true)
      returns (ok: bool, res: int)
      requires Valid() && Fits(length + |text|)
      modifies this, heap, data
      ensures Valid() && overAlloc == old(overAlloc)
      ensures heap.live == old(heap.live) - old(Owned()) + Owned()
      ensures data == old(data) || fresh(data)
      ensures old(heap.failures) <= heap.failures
      ensures heap.failures <= old(heap.failures) + 1
      ensures HexDone(Parse(text, UsedSep(text, sep, guessSep)), heap.failures != old(heap.failures), emptyOk, pos,
                      old(Contents()), ok, res, Contents())
      ensures var meant, s, p := Parse(text, UsedSep(text, sep, guessSep)), old(Contents()),
                                 if pos > old(length) then old(length) else pos;
              if heap.failures != old(heap.failures) then !ok && res == -1 && Contents() == s
              else match meant
                case Spelled(b) => ok && res == |b| > 0 && Contents() == s[..p] + b + s[p..]
                case Empty => ok == emptyOk && res == 0 && Contents() == s
                case InvalidFormat => !ok && res == -2 && Contents() == s
                case InvalidLength => !ok && res == -3 && Contents() == s
      ensures if ok && res != 0 then fresh(data) && capacity == AllocLen(length, overAlloc)
              else data == old(data) && capacity == old(capacity)
    {
      HoldsItsBuffer();
      if text == [] {
        return emptyOk, 0;
      }
      var sp := sep;
      if sep == 0 && guessSep && |text| > 2 {
        sp := GuessSeparator(text);
      }
      var early, d, len, n := HexExtent(text, sp);
      if early.Some? {
        return if early.value.Empty? then emptyOk else false, if early.value.Empty? then 0 else -3;
      }
      ok, res := InsertHex(pos, text, d, len, sp, n, emptyOk);
    }

    /** The part of changeHex that drops the outer separators and counts the octets, n of them in
        text[d..d + len], unless the answer is known already. */
    method HexExtent(text: seq<byte>, sep: byte) returns (early: Option<Outcome>, d: nat, len: nat, n: nat)
      requires text != []
      ensures early.Some? ==> Parse(text, sep) == early.value && (early.value.Empty? || early.value.InvalidLength?)
      ensures early.None? ==>
                && 0 < n && d + len <= |text| && len == CoreLength(n, sep)
                && Parse(text, sep) == Octets(text[d..d + len], sep, n)
    {
      d, len, n := 0, |text|, 0;
      if sep == 0 {
        if len % 2 != 0 {
          return Some(InvalidLength), d, len, n;
        }
        n := len / 2;
        assert text[d..d + len] == text;
        ParseUnseparated(text, n);
        assert Parse(text, sep) == Octets(text[d..d + len], sep, n);
      } else {
        d, len := DropOuter(text, sep);
        if len == 0 {
          return Some(Empty), d, len, n;
        }
        if len % 3 != 2 {
          return Some(InvalidLength), d, len, n;
        }
        n := (len + 1) / 3;
        Thirds(len, 0);
        ParseStripped(text, sep, text[d..d + len], n);
      }
      early := None;
    }

    method DropOuter(text: seq<byte>, sep: byte) returns (d: nat, len: nat)
      requires text != [] && sep != 0
      ensures d + len <= |text| && text[d..d + len] == Strip(text, sep)
    {
      d, len := 0, |text|;
      if text[0] == sep {
        d, len := 1, len - 1;
      }
      if len != 0 && text[d + len - 1] == sep {
        len := len - 1;
      }
    }

    method GuessSeparator(text: seq<byte>) returns (sep: byte)
      requires |text| > 2
      ensures sep == GuessFrom(text, CANDIDATES)
    {
      for i := 0 to |CANDIDATES|
        invariant GuessFrom(text, CANDIDATES) == GuessFrom(text, CANDIDATES[i..])
      {
        var c := CANDIDATES[i];
        var offs := 2;
        if text[0] == c {
          offs := offs + 1;
        }
        if |text| == offs || text[offs] == c {
          return c;
        }
      }
      sep := 0;
    }

    /** The part of changeHex after the lengths are known: decode n octets from text[d..d + len] into the gap of a
        new buffer, copy the old contents around it, and make it the block's buffer. */
    method InsertHex(pos: nat, text: seq<byte>, d: nat, len: nat, sep: byte, n: nat, ghost emptyOk: bool)
      returns (ok: bool, res: int)
      requires Valid() && d + len <= |text| && Fits(length + |text|)
      requires 0 < n && len == CoreLength(n, sep)
      modifies this, heap, data
      ensures Valid() && overAlloc == old(overAlloc)
      ensures heap.live == old(heap.live) - old(Owned()) + Owned()
      ensures data == old(data) || fresh(data)
      ensures old(heap.failures) <= heap.failures
      ensures heap.failures <= old(heap.failures) + 1
      ensures HexDone(Octets(text[d..d + len], sep, n), heap.failures != old(heap.failures), emptyOk, pos,
                      old(Contents()), ok, res, Contents())
      ensures if ok then fresh(data) && capacity == AllocLen(length, overAlloc)
              else data == old(data) && capacity == old(capacity)
      ensures ok ==> res != 0
    {
      ghost var s := Contents();
      var newLen := length + n;
      var aLen := AllocLen(newLen, overAlloc);
      AllocLenIsLeast(newLen, overAlloc, 0);
      var newData := heap.DbAlloc(aLen, null);
      if newData == null {
        return false, -1;
      }
      var p := pos;
      if p > length {
        p := length;
      }
      var iBuf := DecodeHex(newData, p, text, d, len, sep, n);
      if iBuf < n {
        heap.Free(newData);
        return false, -2;
      }
      CopyAround(newData, p, n);
      Adopt(newData, newLen, aLen);
      ok, res := true, n;
    }

    /** The part of changeHex that copies the old contents around the n decoded octets at p. */
    method CopyAround(newData: array<byte>, p: nat, n: nat)
      requires Valid() && newData != data && p <= length && 0 < n && length + n <= newData.Length
      requires length + n < INT_LIMIT
      modifies newData
      ensures newData[..length + n] == Inserted(Contents(), p, old(newData[p..p + n]))
    {
      ghost var s, b := Contents(), newData[p..p + n];
      if data != null {
        HexAround(newData[..], s, p, n);
        RebuildDataInsert(newData, length + n, data, length, p, n);
      }
      assert newData[..length + n] == Inserted(s, p, b);
    }

    /** Two digits and, unless they are the last ones, the separator. */
    method ReadOctet(text: seq<byte>, pos: nat, sep: byte, last: bool) returns (octet: Option<byte>)
      requires pos + 2 <= |text| && (sep != 0 && !last ==> pos + 3 <= |text|)
      ensures octet == if IsHex(text[pos]) && IsHex(text[pos + 1]) && (sep != 0 && !last ==> text[pos + 2] == sep)
                       then Some(Octet(text[pos], text[pos + 1])) else None
    {
      var data := pos;
      var c1 := HexDecode(text[data]);
      data := data + 1;
      var c2 := HexDecode(text[data]);
      data := data + 1;
      if c1.None? || c2.None? {
        return None;
      }
      if sep != 0 && !last {
        data := data + 1;
        if sep != text[data - 1] {
          return None;
        }
      }
      octet := Some((c1.value << 4) | c2.value);
    }

    /** Decode octets until one is malformed; they are written to buf from offset p on. */
    method DecodeHex(buf: array<byte>, p: nat, text: seq<byte>, d: nat, len: nat, sep: byte, n: nat) returns (iBuf: nat)
      requires d + len <= |text| && 0 < n && len == CoreLength(n, sep) && p + n <= buf.Length
      modifies buf
      ensures iBuf <= n
      ensures iBuf == n ==> Octets(text[d..d + len], sep, n) == Spelled(buf[p..p + n])
      ensures iBuf < n ==> Octets(text[d..d + len], sep, n) == InvalidFormat
    {
      ghost var t := text[d..d + len];
      ghost var out: seq<byte> := [];
      var data := d;
      iBuf := 0;
      var i := 0;
      while i < len
        invariant iBuf <= n && i == Step(sep) * iBuf
        invariant iBuf < n ==> data == d + i
        invariant |out| == iBuf && buf[p..p + iBuf] == out && Decoded(t, sep, n, out)
        decreases len - i
      {
        PairWithin(n, sep, iBuf);
        var octet;
        octet, data := DecodeNext(text, d, len, data, sep, n, iBuf, out);
        if octet.None? {
          return;
        }
        buf[p + iBuf] := octet.value;
        out := out + [octet.value];
        iBuf := iBuf + 1;
        i := i + if sep != 0 then 3 else 2;
      }
      assert |out| == n;
      DecodedAll(t, sep, n, out);
    }

    /** The part of the loop that reads the octet with number k and moves on. */
    method DecodeNext(text: seq<byte>, d: nat, len: nat, data: nat, sep: byte, n: nat, k: nat, ghost out: seq<byte>)
      returns (octet: Option<byte>, data': nat)
      requires d + len <= |text| && k < n && len == CoreLength(n, sep) && data == d + Step(sep) * k
      requires Decoded(text[d..d + len], sep, n, out) && |out| == k
      ensures k + 1 < n && octet.Some? ==> data' == d + Step(sep) * (k + 1)
      ensures if octet.Some? then Decoded(text[d..d + len], sep, n, out + [octet.value])
              else Octets(text[d..d + len], sep, n) == InvalidFormat
    {
      PairWithin(n, sep, k);
      var last := k == n - 1;
      octet := ReadOctet(text, data, sep, last);
      DecodedMore(text, d, text[d..d + len], sep, n, out, octet);
      data' := data + if sep != 0 && !last then 3 else 2;
    }
  }

  /** The first octets of the core t are those of out. */
  ghost predicate Decoded(t: seq<byte>, sep: byte, n: nat, out: seq<byte>)
    requires |t| == CoreLength(n, sep)
  {
    |out| <= n && forall k :: 0 <= k < |out| ==>
      PairAt(t, sep, n, k) && out[k] == Octet(t[Step(sep) * k], t[Step(sep) * k + 1])
  }

  lemma DecodedMore(text: seq<byte>, d: nat, t: seq<byte>, sep: byte, n: nat, out: seq<byte>, octet: Option<byte>)
    requires |t| == CoreLength(n, sep) && d + |t| <= |text| && t == text[d..d + |t|]
    requires Decoded(t, sep, n, out) && |out| < n
    requires var i, last := d + Step(sep) * |out|, |out| == n - 1;
             && i + 2 <= |text| && (sep != 0 && !last ==> i + 3 <= |text|)
             && octet == if IsHex(text[i]) && IsHex(text[i + 1]) && (sep != 0 && !last ==> text[i + 2] == sep)
                         then Some(Octet(text[i], text[i + 1])) else None
    ensures if octet.Some? then Decoded(t, sep, n, out + [octet.value]) else Octets(t, sep, n) == InvalidFormat
  {
    var i := Step(sep) * |out|;
    PairWithin(n, sep, |out|);
    assert text[d + i] == t[i] && text[d + i + 1] == t[i + 1];
    assert sep != 0 && |out| < n - 1 ==> text[d + i + 2] == t[i + 2];
    assert PairAt(t, sep, n, |out|) <==> octet.Some?;
  }

  lemma DecodedAll(t: seq<byte>, sep: byte, n: nat, out: seq<byte>)
    requires |t| == CoreLength(n, sep) && Decoded(t, sep, n, out) && |out| == n
    ensures Octets(t, sep, n) == Spelled(out)
  {
    assert out == Octets(t, sep, n).octets;
  }

  lemma PairWithin(n: nat, sep: byte, k: nat)
    requires Step(sep) * k < CoreLength(n, sep) || k < n
    ensures k < n && Step(sep) * k + 2 <= CoreLength(n, sep)
    ensures sep != 0 && k < n - 1 ==> Step(sep) * k + 3 <= CoreLength(n, sep)
    ensures Step(sep) * (k + 1) == Step(sep) * k + Step(sep)
  {
  }

  lemma HexAround(b: seq<byte>, s: seq<byte>, p: nat, n: nat)
    requires p <= |s| && |s| + n <= |b|
    ensures RebuiltInsert(b, |s| + n, s, p, n, None)[..|s| + n] == Inserted(s, p, b[p..p + n])
  {
  }
}
