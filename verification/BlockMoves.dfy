/** The three raw-buffer helpers of DataBlock (engine/DataBlock.cpp:498-625): moving a range inside one
    buffer, and rebuilding a buffer into another one with bytes inserted or removed.
    A negative C fill value ("do not fill") is None here. */
module BlockMoves {
  import opened Bytes

  const INT_LIMIT := 0x8000_0000  // lengths that are converted to int stay below this

  /** s with gap inserted at position p. */
  function Inserted(s: seq<byte>, p: nat, gap: seq<byte>): seq<byte>
    requires p <= |s|
  {
    s[..p] + gap + s[p..]
  }

  /** s without the n bytes from position p on. */
  function Removed(s: seq<byte>, p: nat, n: nat): seq<byte>
    requires p + n <= |s|
  {
    s[..p] + s[p + n..]
  }

  // ---------- moveData

  predicate MoveApplies(bufLen: nat, len: nat, dPos: nat, sPos: nat) {
    len != 0 && sPos != dPos && sPos + len <= bufLen && dPos + len <= bufLen
  }

  /** The cells moveData fills, as its three memset calls choose them. */
  predicate FillZone(len: nat, dPos: nat, sPos: nat, i: int) {
    if sPos - dPos >= len then sPos <= i < sPos + len
    else if sPos > dPos then dPos + len <= i < sPos + len
    else sPos <= i < dPos
  }

  /** The cells the move left behind: in the source range, not in the destination range. */
  predicate Vacated(len: nat, dPos: nat, sPos: nat, i: int) {
    sPos <= i < sPos + len && !(dPos <= i < dPos + len)
  }

  function MovedCell(b: seq<byte>, len: nat, dPos: nat, sPos: nat, zone: bool, fill: Option<byte>, i: nat): byte
    requires i < |b| && sPos + len <= |b|
  {
    if dPos <= i < dPos + len then b[i - dPos + sPos] else if zone && fill.Some? then fill.value else b[i]
  }

  /** The buffer after moveData, cell by cell. */
  function Moved(b: seq<byte>, bufLen: nat, len: nat, dPos: nat, sPos: nat, fill: Option<byte>): (r: seq<byte>)
    requires bufLen <= |b|
    ensures |r| == |b|
  {
    if MoveApplies(bufLen, len, dPos, sPos) then
      seq(|b|, i requires 0 <= i < |b| => MovedCell(b, len, dPos, sPos, FillZone(len, dPos, sPos, i), fill, i))
    else b
  }

  /** What the fill option promises: exactly the vacated cells are reset. */
  function MovedIdeally(b: seq<byte>, bufLen: nat, len: nat, dPos: nat, sPos: nat, fill: Option<byte>): (r: seq<byte>)
    requires bufLen <= |b|
    ensures |r| == |b|
  {
    if MoveApplies(bufLen, len, dPos, sPos) then
      seq(|b|, i requires 0 <= i < |b| => MovedCell(b, len, dPos, sPos, Vacated(len, dPos, sPos, i), fill, i))
    else b
  }

  method MoveData(buf: array?<byte>, bufLen: nat, len: nat, dPos: nat, sPos: nat, fill: Option<byte> := None)
    requires buf != null ==> bufLen <= buf.Length
    requires bufLen < INT_LIMIT
    modifies buf
    ensures buf != null ==> buf[..] == Moved(old(buf[..]), bufLen, len, dPos, sPos, fill)
  {
    var delta: int := sPos - dPos;
    if !(buf != null && len != 0) || delta == 0 || sPos + len > bufLen || dPos + len > bufLen {
      return;
    }
    var useCopy := delta >= len;
    if useCopy {
      MemcpyWithin(buf, dPos, sPos, len);
    } else {
      Memmove(buf, dPos, sPos, len);
    }
    if fill.Some? {
      if useCopy {
        Memset(buf, sPos, fill.value, len);
      } else if delta > 0 {
        Memset(buf, sPos + len - delta, fill.value, delta);
      } else {
        Memset(buf, sPos, fill.value, -delta);
      }
    }
    assert forall i :: 0 <= i < buf.Length ==>
      buf[..][i] == MovedCell(old(buf[..]), len, dPos, sPos, FillZone(len, dPos, sPos, i), fill, i);
  }

  /** The fill reaches exactly the vacated cells, whatever the buffer holds, if and only if the data is not
      moved toward the end by more than its own length. In the remaining case the fill also wipes the gap
      between the two ranges. */
  lemma FillIsExactIff(n: nat, bufLen: nat, len: nat, dPos: nat, sPos: nat, fill: byte)
    requires bufLen <= n && MoveApplies(bufLen, len, dPos, sPos)
    ensures (forall b: seq<byte> | |b| == n ::
               Moved(b, bufLen, len, dPos, sPos, Some(fill)) == MovedIdeally(b, bufLen, len, dPos, sPos, Some(fill)))
            <==> dPos - sPos <= len
  {
    if dPos - sPos > len {
      var b := Repeat(fill + 1, n);
      assert Moved(b, bufLen, len, dPos, sPos, Some(fill))[sPos + len] == fill;
      assert MovedIdeally(b, bufLen, len, dPos, sPos, Some(fill))[sPos + len] == fill + 1;
    } else {
      assert forall i :: 0 <= i < n && !(dPos <= i < dPos + len) ==>
        FillZone(len, dPos, sPos, i) == Vacated(len, dPos, sPos, i);
    }
  }

  // ---------- rebuildDataInsert

  function InsertCell(dest: seq<byte>, src: seq<byte>, p: nat, space: nat, fill: Option<byte>, i: nat): byte
    requires i < |dest| && p <= |src|
  {
    if i < p then src[i]
    else if i < p + space then if fill.Some? then fill.value else dest[i]
    else if i < |src| + space then src[i - space]
    else dest[i]
  }

  /** The buffer dest after rebuildDataInsert, cell by cell: src with `space` cells opened at pos (clamped to
      its end). The opened cells are filled when a fill value is given and are left alone otherwise. */
  function RebuiltInsert(dest: seq<byte>, dLen: nat, src: seq<byte>, pos: nat, space: nat, fill: Option<byte>)
    : (r: seq<byte>)
    requires dLen <= |dest|
    ensures |r| == |dest|
  {
    if |src| + space > dLen then dest
    else seq(|dest|, i requires 0 <= i < |dest| => InsertCell(dest, src, Min(pos, |src|), space, fill, i))
  }

  lemma NothingInserted(dest: seq<byte>, dLen: nat, src: seq<byte>, pos: nat, space: nat, fill: Option<byte>)
    requires dLen <= |dest|
    requires |src| + space == 0 || |src| + space > dLen
    ensures RebuiltInsert(dest, dLen, src, pos, space, fill) == dest
  {
  }

  method RebuildDataInsert(dest: array?<byte>, dLen: nat, src: array?<byte>, sLen: nat, pos: nat, space: nat,
                           fill: Option<byte> := None)
    requires dest != null ==> dLen <= dest.Length && dest != src
    requires src != null ==> sLen <= src.Length
    requires dLen < INT_LIMIT
    modifies dest
    ensures dest != null && src != null ==>
              dest[..] == RebuiltInsert(old(dest[..]), dLen, old(src[..sLen]), pos, space, fill)
    ensures dest != null && src == null ==> dest[..] == old(dest[..])
  {
    if !(src != null && dest != null && (space != 0 || sLen != 0)) || space + sLen > dLen {
      if dest != null && src != null {
        NothingInserted(dest[..], dLen, src[..sLen], pos, space, fill);
      }
      return;
    }
    ghost var d0, s := dest[..], src[..sLen];
    if pos == 0 {
      if sLen != 0 {
        Memcpy(dest, space, src, 0, sLen);
      }
      if space != 0 && fill.Some? {
        Memset(dest, 0, fill.value, space);
      }
    } else if pos >= sLen {
      if sLen != 0 {
        Memcpy(dest, 0, src, 0, sLen);
      }
      if space != 0 && fill.Some? {
        Memset(dest, sLen, fill.value, space);
      }
    } else {
      Memcpy(dest, 0, src, 0, pos);
      Memcpy(dest, pos + space, src, pos, sLen - pos);
      if space != 0 && fill.Some? {
        Memset(dest, pos, fill.value, space);
      }
    }
    assert forall i :: 0 <= i < dest.Length ==> dest[..][i] == InsertCell(d0, s, Min(pos, sLen), space, fill, i);
  }

  // ---------- rebuildDataRemove

  function RemoveCell(dest: seq<byte>, dLen: nat, src: seq<byte>, pos: nat, n: nat, fillAfter: Option<byte>,
                      i: nat): byte
    requires i < |dest| && pos + n <= |src|
  {
    if i < pos then src[i]
    else if i < |src| - n then src[i + n]
    else if i < dLen && fillAfter.Some? then fillAfter.value
    else dest[i]
  }

  /** The buffer dest after rebuildDataRemove, cell by cell: src without the cells at [pos, pos + space), the
      rest of the declared destination filled when a fill value is given. */
  function RebuiltRemove(dest: seq<byte>, dLen: nat, src: seq<byte>, pos: nat, space: nat, fillAfter: Option<byte>)
    : (r: seq<byte>)
    requires dLen <= |dest|
    ensures |r| == |dest|
  {
    if 0 < space < |src| && pos < |src| && |src| - Min(space, |src| - pos) <= dLen then
      seq(|dest|, i requires 0 <= i < |dest| =>
        RemoveCell(dest, dLen, src, pos, Min(space, |src| - pos), fillAfter, i))
    else dest
  }

  method RebuildDataRemove(dest: array?<byte>, dLen: nat, src: array?<byte>, sLen: nat, pos: nat, space: nat,
                           fillAfter: Option<byte> := None)
    requires dest != null ==> dLen <= dest.Length && dest != src
    requires src != null ==> sLen <= src.Length
    requires dLen < INT_LIMIT
    modifies dest
    ensures dest != null && src != null ==>
              dest[..] == RebuiltRemove(old(dest[..]), dLen, old(src[..sLen]), pos, space, fillAfter)
    ensures dest != null && src == null ==> dest[..] == old(dest[..])
  {
    if !(src != null && dest != null && space != 0) || pos >= sLen || space >= sLen {
      return;
    }
    ghost var d0, s := dest[..], src[..sLen];
    var n := space;
    if pos + n > sLen {
      n := sLen - pos;
    }
    var cp := sLen - n;
    if cp > dLen {
      return;
    }
    if pos == 0 {
      Memcpy(dest, 0, src, n, cp);
    } else if pos + n >= sLen {
      Memcpy(dest, 0, src, 0, cp);
    } else {
      Memcpy(dest, 0, src, 0, pos);
      Memcpy(dest, pos, src, pos + n, cp - pos);
    }
    if fillAfter.Some? && cp < dLen {
      Memset(dest, cp, fillAfter.value, dLen - cp);
    }
    assert forall i :: 0 <= i < dest.Length ==> dest[..][i] == RemoveCell(d0, dLen, s, pos, n, fillAfter, i);
  }

  // ---------- single cells

  /** moveData: copied cells, the cells reset by the three ways of filling, and all the others unchanged. */
  lemma MovedAt(b: seq<byte>, bufLen: nat, len: nat, dPos: nat, sPos: nat, fill: Option<byte>, i: nat)
    requires bufLen <= |b| && i < |b|
    ensures Moved(b, bufLen, len, dPos, sPos, fill)[i] ==
            if len == 0 || sPos == dPos || sPos + len > bufLen || dPos + len > bufLen then b[i]
            else if dPos <= i < dPos + len then b[sPos + (i - dPos)]
            else if fill.Some? && (if sPos >= dPos + len then sPos <= i < sPos + len
                                   else if sPos > dPos then dPos + len <= i < sPos + len
                                   else sPos <= i < dPos) then fill.value
            else b[i]
  {
  }

  /** rebuildDataInsert: the source around the gap, which is filled or left alone, and nothing else. */
  lemma RebuiltInsertAt(dest: seq<byte>, dLen: nat, src: seq<byte>, pos: nat, space: nat, fill: Option<byte>, i: nat)
    requires dLen <= |dest| && i < |dest|
    ensures var p := if pos > |src| then |src| else pos;
            RebuiltInsert(dest, dLen, src, pos, space, fill)[i] ==
            if |src| + space > dLen || i >= |src| + space then dest[i]
            else if i < p then src[i]
            else if i >= p + space then src[i - space]
            else if fill.Some? then fill.value else dest[i]
  {
  }

  /** rebuildDataRemove: the source without the removed cells, and the fill behind it. */
  lemma RebuiltRemoveAt(dest: seq<byte>, dLen: nat, src: seq<byte>, pos: nat, space: nat, fill: Option<byte>, i: nat)
    requires dLen <= |dest| && i < |dest|
    ensures var n := if pos + space > |src| then |src| - pos else space;
            RebuiltRemove(dest, dLen, src, pos, space, fill)[i] ==
            if space == 0 || space >= |src| || pos >= |src| || |src| - n > dLen then dest[i]
            else if i < |src| - n then src[if i < pos then i else i + n]
            else if i < dLen && fill.Some? then fill.value
            else dest[i]
  {
  }

  // ---------- the in-place and the out-of-place way agree

  lemma BlitInserts(roomy: seq<byte>, s: seq<byte>, pos: nat, gap: seq<byte>)
    requires pos <= |s| && |s| + |gap| <= |roomy|
    requires forall i :: 0 <= i < pos ==> roomy[i] == s[i]
    requires forall i :: pos + |gap| <= i < |s| + |gap| ==> roomy[i] == s[i - |gap|]
    ensures Blit(roomy, pos, gap)[..|s| + |gap|] == Inserted(s, pos, gap)
  {
  }

  /** Opening a gap by moving the tail inside a buffer that starts with s, and opening it while copying s to
      any other buffer, leave the gap unwritten in both cases. Filling it then gives the plain insertion
      either way. */
  lemma InsertInPlaceOrRebuilt(b: seq<byte>, dest: seq<byte>, s: seq<byte>, pos: nat, gap: seq<byte>)
    requires pos < |s| && gap != [] && |s| + |gap| <= |b| && |s| + |gap| <= |dest|
    requires s <= b
    ensures var n := |s| + |gap|;
            var inPlace := Moved(b, n, |s| - pos, pos + |gap|, pos, None);
            var rebuilt := RebuiltInsert(dest, n, s, pos, |gap|, None);
            && inPlace[pos..pos + |gap|] == b[pos..pos + |gap|]
            && rebuilt[pos..pos + |gap|] == dest[pos..pos + |gap|]
            && Blit(inPlace, pos, gap)[..n] == Inserted(s, pos, gap) == Blit(rebuilt, pos, gap)[..n]
  {
    var n := |s| + |gap|;
    var inPlace := Moved(b, n, |s| - pos, pos + |gap|, pos, None);
    var rebuilt := RebuiltInsert(dest, n, s, pos, |gap|, None);
    assert forall i :: 0 <= i < n ==> inPlace[i] == if i < pos + |gap| then b[i] else b[i - |gap|];
    assert forall i :: 0 <= i < n ==> rebuilt[i] == InsertCell(dest, s, pos, |gap|, None, i);
    BlitInserts(inPlace, s, pos, gap);
    BlitInserts(rebuilt, s, pos, gap);
  }

  /** Closing a gap by moving the tail down, and closing it while copying to another buffer, both leave the
      plain removal at the start of the buffer. */
  lemma RemoveInPlaceOrRebuilt(b: seq<byte>, dest: seq<byte>, s: seq<byte>, pos: nat, n: nat)
    requires 0 < n && pos + n < |s| && s <= b && |s| - n <= |dest|
    ensures Removed(s, pos, n) <= Moved(b, |s|, |s| - pos - n, pos, pos + n, None)
    ensures Removed(s, pos, n) <= RebuiltRemove(dest, |s| - n, s, pos, n, Some(0))
  {
    var inPlace := Moved(b, |s|, |s| - pos - n, pos, pos + n, None);
    assert forall i :: 0 <= i < |s| - n ==> inPlace[i] == if i < pos then b[i] else b[i + n];
  }

  /** Cutting what was just inserted restores the bytes. */
  lemma InsertThenRemove(s: seq<byte>, p: nat, gap: seq<byte>)
    requires p <= |s|
    ensures Removed(Inserted(s, p, gap), p, |gap|) == s
  {
    assert Inserted(s, p, gap)[p + |gap|..] == s[p..];
  }

  /** Inserting back what is about to be cut undoes the cut. */
  lemma RemoveThenInsert(s: seq<byte>, p: nat, n: nat)
    requires p + n <= |s|
    ensures Inserted(Removed(s, p, n), p, s[p..p + n]) == s
  {
    assert Removed(s, p, n)[p..] == s[p + n..];
  }
}
