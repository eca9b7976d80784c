/** Whole runs of data block operations against the same run on a plain byte sequence. */
module BlockRuns {
  import opened Bytes
  import opened BlockMoves
  import opened Blocks
  import opened HexText
  import opened Grants

  datatype Op =
    | Change(pos: nat, bytes: seq<byte>, extra: nat, v: byte, mayOverlap: bool)
    | Assign(bytes: seq<byte>)
    | AssignZeros(len: nat)
    | ChangeHex(pos: nat, text: seq<byte>, sep: byte, guessSep: bool)
    | Resize(len: nat, keepData: bool, reAlloc: bool)
    | Cut(pos: nat, len: nat, reAlloc: bool)
    | Clear
    | SetOverAlloc(n: nat)

  /** The contents after one operation; ok tells whether every allocation it made was granted. */
  function After(s: seq<byte>, op: Op, ok: bool): seq<byte> {
    match op
    case Change(pos, bytes, extra, v, _) => if ok then InsertedAt(s, pos, bytes + Repeat(v, extra)) else s
    case Assign(bytes) => if ok then bytes else []
    case AssignZeros(len) => if ok then Zeros(len) else []
    case ChangeHex(pos, text, sep, guessSep) =>
      if ok then WithOctets(s, pos, Parse(text, UsedSep(text, sep, guessSep))) else s
    case Resize(len, keepData, _) => Resized(s, len, keepData, ok)
    case Cut(pos, len, _) => CutOut(s, pos, len)
    case Clear => []
    case SetOverAlloc(_) => s
  }

  function WithOctets(s: seq<byte>, pos: nat, text: Outcome): seq<byte> {
    if text.Spelled? then InsertedAt(s, pos, text.octets) else s
  }

  function AfterAll(s: seq<byte>, ops: seq<Op>, oks: seq<bool>): seq<byte>
    requires |ops| == |oks|
    decreases |ops|
  {
    if ops == [] then s else AfterAll(After(s, ops[0], oks[0]), ops[1..], oks[1..])
  }

  /** The operations that allocate, on contents s in a buffer of cap. */
  predicate Asks(s: seq<byte>, op: Op, cap: nat, over: nat) {
    match op
    case Change(_, bytes, extra, _, mayOverlap) => ChangeAsks(|s|, cap, |bytes| + extra, bytes != [] && mayOverlap)
    case Assign(bytes) => bytes != []
    case AssignZeros(len) => ZeroingAsks(|s|, cap, len, over)
    case ChangeHex(_, text, sep, guessSep) =>
      var meant := Parse(text, UsedSep(text, sep, guessSep));
      meant.Spelled? || meant.InvalidFormat?
    case Resize(len, keepData, reAlloc) => ResizeAsks(|s|, cap, len, keepData, reAlloc, over)
    case Cut(pos, len, reAlloc) => CutAsks(|s|, cap, |CutOut(s, pos, len)|, reAlloc, over)
    case Clear => false
    case SetOverAlloc(_) => false
  }

  /** The capacity after one operation. */
  function CapacityAfter(s: seq<byte>, op: Op, cap: nat, over: nat, ok: bool): nat {
    match op
    case Change(_, bytes, extra, _, _) => if ok then ChangedCapacity(|s|, cap, |bytes| + extra, over) else cap
    case Assign(bytes) => if ok && bytes != [] then AllocLen(|bytes|, over) else 0
    case AssignZeros(len) => if ok && len > 0 then AllocLen(len, over) else 0
    case ChangeHex(_, text, sep, guessSep) =>
      var meant := Parse(text, UsedSep(text, sep, guessSep));
      if ok && meant.Spelled? then AllocLen(|s| + |meant.octets|, over) else cap
    case Resize(len, keepData, reAlloc) => ResizedCapacity(|s|, cap, len, keepData, reAlloc, over, ok)
    case Cut(pos, len, reAlloc) => CutCapacity(|s|, cap, |CutOut(s, pos, len)|, reAlloc, over, ok)
    case Clear => 0
    case SetOverAlloc(_) => cap
  }

  /** Along the run only operations that allocate are refused. */
  predicate RefusedWhenAsked(s: seq<byte>, cap: nat, over: nat, ops: seq<Op>, oks: seq<bool>)
    requires |ops| == |oks|
    decreases |ops|
  {
    ops != [] ==>
      && (oks[0] || Asks(s, ops[0], cap, over))
      && RefusedWhenAsked(After(s, ops[0], oks[0]), CapacityAfter(s, ops[0], cap, over, oks[0]),
                          OverAllocAfter(over, ops[0]), ops[1..], oks[1..])
  }

  /** A bound for the length after an operation on a block of n bytes; it is met unless memory is refused, a hex
      text is refused or the range cut is empty. */
  function LengthAfter(n: nat, op: Op): nat {
    match op
    case Change(_, bytes, extra, _, _) => n + |bytes| + extra
    case Assign(bytes) => |bytes|
    case AssignZeros(len) => len
    case ChangeHex(_, text, _, _) => n + |text|
    case Resize(len, _, _) => len
    case Cut(_, _, _) => n
    case Clear => 0
    case SetOverAlloc(_) => n
  }

  function OverAllocAfter(over: nat, op: Op): nat {
    if op.SetOverAlloc? then op.n else over
  }

  predicate InRange(n: nat, over: nat) {
    n + over + 8 < INT_LIMIT
  }

  /** The lengths reached from length n stay in the range of int, over-allocation and rounding included. */
  predicate FitsAll(n: nat, over: nat, ops: seq<Op>)
    decreases |ops|
  {
    InRange(n, over) &&
    (ops != [] ==> InRange(LengthAfter(n, ops[0]), over)
                   && FitsAll(LengthAfter(n, ops[0]), OverAllocAfter(over, ops[0]), ops[1..]))
  }

  lemma {:induction false} FitsLess(m: nat, n: nat, over: nat, ops: seq<Op>)
    requires m <= n && FitsAll(n, over, ops)
    ensures FitsAll(m, over, ops)
    decreases |ops|
  {
    if ops != [] {
      FitsLess(LengthAfter(m, ops[0]), LengthAfter(n, ops[0]), OverAllocAfter(over, ops[0]), ops[1..]);
    }
  }

  lemma AfterIsBounded(s: seq<byte>, op: Op, ok: bool)
    ensures |After(s, op, ok)| <= LengthAfter(|s|, op)
  {
    if op.ChangeHex? {
      OctetsAreFewer(op.text, UsedSep(op.text, op.sep, op.guessSep));
    }
  }

  lemma OctetsAreFewer(text: seq<byte>, sep: byte)
    ensures Parse(text, sep).Spelled? ==> |Parse(text, sep).octets| <= |text|
  {
  }

  method NewBuffer(x: seq<byte>) returns (a: array<byte>)
    ensures fresh(a) && a[..] == x
  {
    a := new byte[|x|](i requires 0 <= i < |x| => x[i]);
  }

  /** The operations that are given bytes. */
  method StepWithBytes(b: DataBlock, op: Op)
    requires op.Change? || op.Assign?
    requires b.Valid() && b.Fits(LengthAfter(b.length, op))
    modifies b, b.heap, b.data
    ensures b.Valid() && b.overAlloc == old(b.overAlloc)
    ensures b.heap.live == old(b.heap.live) - old(b.Owned()) + b.Owned()
    ensures b.data == null || b.data == old(b.data) || fresh(b.data)
    ensures old(b.heap.failures) <= b.heap.failures <= old(b.heap.failures) + 1
    ensures var ok := b.heap.failures == old(b.heap.failures);
            && (ok || Asks(old(b.Contents()), op, old(b.capacity), b.overAlloc))
            && b.capacity == CapacityAfter(old(b.Contents()), op, old(b.capacity), b.overAlloc, ok)
            && b.Contents() == After(old(b.Contents()), op, ok)
  {
    var a := NewBuffer(op.bytes);
    assert a[..|op.bytes|] == op.bytes;
    if op.Change? {
      var _ := b.Change(op.pos, a, |op.bytes|, op.extra, op.v, op.mayOverlap);
    } else {
      b.Assign(a, |op.bytes|);
    }
  }

  method Step(b: DataBlock, op: Op) returns (ghost ok: bool)
    requires b.Valid() && b.Fits(b.length) && b.Fits(LengthAfter(b.length, op))
    modifies b, b.heap, b.data
    ensures b.Valid() && b.overAlloc == OverAllocAfter(old(b.overAlloc), op)
    ensures b.heap.live == old(b.heap.live) - old(b.Owned()) + b.Owned()
    ensures b.data == null || b.data == old(b.data) || fresh(b.data)
    ensures b.heap.failures == old(b.heap.failures) + if ok then 0 else 1
    ensures ok || Asks(old(b.Contents()), op, old(b.capacity), old(b.overAlloc))
    ensures b.capacity == CapacityAfter(old(b.Contents()), op, old(b.capacity), old(b.overAlloc), ok)
    ensures b.Contents() == After(old(b.Contents()), op, ok)
  {
    ghost var f := b.heap.failures;
    match op {
      case Change(_, _, _, _, _) =>
        StepWithBytes(b, op);
      case Assign(_) =>
        StepWithBytes(b, op);
      case AssignZeros(len) =>
        b.Assign(null, len);
      case ChangeHex(pos, text, sep, guessSep) =>
        var _, _ := b.ChangeHex(pos, text, sep, guessSep);
      case Resize(len, keepData, reAlloc) =>
        b.Resize(len, keepData, reAlloc);
      case Cut(pos, len, reAlloc) =>
        b.Cut(pos, len, reAlloc);
      case Clear =>
        b.Clear();
      case SetOverAlloc(n) =>
        b.overAlloc := n;
    }
    ok := b.heap.failures == f;
  }

  /** Any run of operations leaves the block with what the same run makes of the plain sequence, and the heap
      with the block's own buffer as the only difference. */
  method Run(b: DataBlock, ops: seq<Op>) returns (ghost oks: seq<bool>)
    requires b.Valid() && FitsAll(b.length, b.overAlloc, ops)
    modifies b, b.heap, b.data
    ensures b.Valid() && |oks| == |ops|
    ensures b.heap.live == old(b.heap.live) - old(b.Owned()) + b.Owned()
    ensures b.data == null || b.data == old(b.data) || fresh(b.data)
    ensures b.heap.failures == old(b.heap.failures) + Refused(oks)
    ensures RefusedWhenAsked(old(b.Contents()), old(b.capacity), old(b.overAlloc), ops, oks)
    ensures b.Contents() == AfterAll(old(b.Contents()), ops, oks)
    decreases |ops|
  {
    if ops == [] {
      return [];
    }
    ghost var s := b.Contents();
    ghost var ok := Step(b, ops[0]);
    AfterIsBounded(s, ops[0], ok);
    FitsLess(b.length, LengthAfter(|s|, ops[0]), b.overAlloc, ops[1..]);
    ghost var rest := Run(b, ops[1..]);
    oks := [ok] + rest;
    OneAnswer(ok, rest);
    assert oks[1..] == rest;
  }

  /** The same operation up to the settings that only govern buffers. */
  predicate SameEffect(op1: Op, op2: Op) {
    match (op1, op2)
    case (Change(p1, b1, e1, v1, _), Change(p2, b2, e2, v2, _)) => p1 == p2 && b1 == b2 && e1 == e2 && v1 == v2
    case (Resize(l1, k1, _), Resize(l2, k2, _)) => l1 == l2 && k1 == k2
    case (Cut(p1, l1, _), Cut(p2, l2, _)) => p1 == p2 && l1 == l2
    case (SetOverAlloc(_), SetOverAlloc(_)) => true
    case _ => op1 == op2
  }

  /** Two runs that differ only in reAlloc, mayOverlap and over-allocation settings, and that get the same
      answers from the allocator, end with the same contents. */
  lemma {:induction false} SettingsDoNotMatter(s: seq<byte>, ops1: seq<Op>, ops2: seq<Op>, oks: seq<bool>)
    requires |ops1| == |ops2| == |oks|
    requires forall k :: 0 <= k < |ops1| ==> SameEffect(ops1[k], ops2[k])
    ensures AfterAll(s, ops1, oks) == AfterAll(s, ops2, oks)
    decreases |ops1|
  {
    if ops1 != [] {
      assert SameEffect(ops1[0], ops2[0]);
      SettingsDoNotMatter(After(s, ops1[0], oks[0]), ops1[1..], ops2[1..], oks[1..]);
    }
  }

  /** Two blocks with the same contents that go through the same operations, up to the settings that only govern
      buffers, end with the same contents, whatever buffers, capacities and over-allocations they started with,
      unless memory is refused to one of them. */
  method RunBoth(b1: DataBlock, ops1: seq<Op>, b2: DataBlock, ops2: seq<Op>)
    requires b1.Valid() && FitsAll(b1.length, b1.overAlloc, ops1)
    requires b2.Valid() && FitsAll(b2.length, b2.overAlloc, ops2)
    requires b1 != b2 && (b1.data == null || b1.data != b2.data)
    requires b1.Contents() == b2.Contents()
    requires |ops1| == |ops2| && forall k :: 0 <= k < |ops1| ==> SameEffect(ops1[k], ops2[k])
    modifies b1, b1.heap, b1.data, b2, b2.heap, b2.data
    ensures b1.Valid() && b2.Valid()
    ensures b1.heap.failures == old(b1.heap.failures) && b2.heap.failures == old(b2.heap.failures) ==>
              b1.Contents() == b2.Contents()
  {
    ghost var s := b1.Contents();
    ghost var oks1 := Run(b1, ops1);
    assert b2.Contents() == s;
    ghost var oks2 := Run(b2, ops2);
    if b1.heap.failures == old(b1.heap.failures) && b2.heap.failures == old(b2.heap.failures) {
      NoneRefused(oks1);
      NoneRefused(oks2);
      assert oks1 == oks2;
      SettingsDoNotMatter(s, ops1, ops2, oks1);
    }
  }

  // ---------- undoing

  /** A change as far as the contents are concerned. */
  method Insert(b: DataBlock, pos: nat, buf: array?<byte>, bufLen: nat, extra: nat, v: byte, mayOverlap: bool,
                ghost x: seq<byte>)
    returns (ok: bool)
    requires b.Valid() && b.Fits(b.length + |x|)
    requires buf != null ==> buf != b.data && bufLen <= buf.Length
    requires x == (if buf == null then [] else buf[..bufLen]) + Repeat(v, extra)
    modifies b, b.heap, b.data
    ensures b.Valid() && b.overAlloc == old(b.overAlloc) && (b.data == old(b.data) || fresh(b.data))
    ensures b.heap.failures == old(b.heap.failures) + if ok then 0 else 1
    ensures b.Contents() == if ok then InsertedAt(old(b.Contents()), pos, x) else old(b.Contents())
  {
    ok := b.Change(pos, buf, bufLen, extra, v, mayOverlap);
  }

  /** A cut as far as the contents are concerned. */
  method Remove(b: DataBlock, pos: nat, len: nat, reAlloc: bool)
    requires b.Valid() && b.Fits(b.length)
    modifies b, b.heap, b.data
    ensures b.Valid() && b.overAlloc == old(b.overAlloc) && (b.data == null || b.data == old(b.data) || fresh(b.data))
    ensures old(b.heap.failures) <= b.heap.failures
    ensures b.Contents() == CutOut(old(b.Contents()), pos, len)
  {
    b.Cut(pos, len, reAlloc);
  }

  /** Cutting what was just inserted restores the block, whatever the settings and the buffers. */
  method ChangeThenCut(b: DataBlock, pos: nat, buf: array?<byte>, bufLen: nat, extra: nat, v: byte, mayOverlap: bool,
                       reAlloc: bool)
    requires b.Valid() && b.Fits(b.length + (if buf == null then 0 else bufLen) + extra)
    requires buf != null ==> buf != b.data && bufLen <= buf.Length
    modifies b, b.heap, b.data
    ensures b.Valid() && b.Contents() == old(b.Contents())
  {
    ghost var s := b.Contents();
    ghost var x := (if buf == null then [] else buf[..bufLen]) + Repeat(v, extra);
    var at := if pos > b.length then b.length else pos;
    var ok := Insert(b, pos, buf, bufLen, extra, v, mayOverlap, x);
    if ok {
      Remove(b, at, (if buf == null then 0 else bufLen) + extra, reAlloc);
      TakenOut(s, pos, x);
    }
  }

  /** Putting back what was cut restores the block, unless memory is refused for it. */
  method CutThenChange(b: DataBlock, pos: nat, len: nat, mayOverlap: bool, reAlloc: bool) returns (ok: bool)
    requires b.Valid() && b.Fits(b.length) && pos + len <= b.length
    modifies b, b.heap, b.data
    ensures b.Valid()
    ensures b.Contents() == if ok then old(b.Contents()) else Removed(old(b.Contents()), pos, len)
    ensures !ok ==> b.heap.failures != old(b.heap.failures)
  {
    ghost var s := b.Contents();
    ghost var x := s[pos..pos + len];
    if len > 0 {
      PartOfFront(b.data[..], b.length, pos, len);
      assert b.data[..][..b.length] == s && b.data[..][pos..pos + len] == b.data[pos..pos + len];
    }
    var buf := NewBuffer(if len == 0 then [] else b.data[pos..pos + len]);
    assert buf[..] == x;
    Remove(b, pos, len, reAlloc);
    PutBack(s, pos, len);
    assert buf[..len] + Repeat(0, 0) == x;
    ok := Insert(b, pos, buf, len, 0, 0, mayOverlap, x);
  }

  lemma PartOfFront(a: seq<byte>, n: nat, pos: nat, len: nat)
    requires pos + len <= n <= |a|
    ensures a[..n][pos..pos + len] == a[pos..pos + len]
  {
  }

  lemma TakenOut(s: seq<byte>, pos: nat, x: seq<byte>)
    ensures CutOut(InsertedAt(s, pos, x), Min(pos, |s|), |x|) == s
  {
    if x == [] {
      InsertNothing(s, pos, x);
    }
    InsertThenRemove(s, Min(pos, |s|), x);
  }

  lemma PutBack(s: seq<byte>, pos: nat, len: nat)
    requires pos + len <= |s|
    ensures CutOut(s, pos, len) == Removed(s, pos, len)
    ensures InsertedAt(Removed(s, pos, len), pos, s[pos..pos + len]) == s
  {
    RemoveThenInsert(s, pos, len);
  }

  /** Octets written in hexadecimal, high digit first, are inserted as they are, with their separator told or, when it
      is a candidate or there is none, guessed; unless memory is refused. */
  method InsertWritten(b: DataBlock, pos: nat, text: seq<byte>, sep: byte, told: bool, ghost octets: seq<byte>)
    returns (ok: bool, res: int)
    requires b.Valid() && b.Fits(b.length + |text|)
    requires octets != [] && |text| == if sep == 0 then 2 * |octets| else 3 * |octets| - 1
    requires forall k :: 0 <= k < |octets| ==> WrittenAt(text, sep, octets, k)
    requires sep as char !in "0123456789abcdefABCDEF" && (told || sep == 0 || sep as char in " :;.,-/|")
    modifies b, b.heap, b.data
    ensures b.Valid()
    ensures b.heap.failures == old(b.heap.failures) ==>
              ok && res == |octets|
              && b.Contents() == old(b.Contents())[..Min(pos, old(b.length))] + octets
                                 + old(b.Contents())[Min(pos, old(b.length))..]
    ensures b.heap.failures != old(b.heap.failures) ==> !ok && res == -1 && b.Contents() == old(b.Contents())
  {
    WrittenIsRead(text, sep, octets);
    assert UsedSep(text, sep, false) == sep;
    ok, res := b.ChangeHex(pos, text, if told then sep else 0, !told);
  }
}
