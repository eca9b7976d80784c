/** GenericVector (yateclass.h:4691-5151): a vector with spare slots at the end. What the default constructor of
    the held type makes is the value `blank`. */
module GenericVectors {
  import opened Bytes
  import opened Grants

  function Blanks<T>(blank: T, n: nat): (s: seq<T>)
    ensures |s| == n && forall i :: 0 <= i < n ==> s[i] == blank
  {
    seq(n, _ => blank)
  }

  /** The contents after resize. */
  function Resized<T>(s: seq<T>, len: nat, blank: T): seq<T> {
    if len == 0 || len == |s| then s
    else if len < |s| then s[..len]
    else s + Blanks(blank, len - |s|)
  }

  /** How many items assign copies. */
  function CopyCount(len: nat, count: nat): nat {
    if count == 0 then len else Min(count, len)
  }

  /** The contents after the assignment operator: an empty vector assigned changes nothing. */
  function Assigned<T>(s: seq<T>, t: seq<T>): seq<T> {
    if t == [] then s else t
  }

  /** A resize that cannot be done in the present buffer: growth past its end, or so much shrinking that more than
      overAlloc slots would be spare. */
  predicate NeedsMemory(len: nat, length: nat, size: nat, overAlloc: nat) {
    len != 0 && len != length && (len > size || (len < length && size - len > overAlloc))
  }

  /** The size a resize leaves; over-allocation is asked for anew whenever memory is. */
  function SizeFor(len: nat, length: nat, size: nat, overAlloc: nat, ok: bool): nat {
    if ok && NeedsMemory(len, length, size, overAlloc) then len + overAlloc else size
  }

  class GenericVector<T> {
    ghost var refusals: nat  // how many allocations failed so far
    const blank: T
    const overAlloc: nat
    var data: array?<T>
    var length: nat
    var size: nat

    /** The spare slots number at most overAlloc and hold blanks. */
    ghost predicate Valid()
      reads this, data
    {
      if data == null then length == 0 && size == 0
      else
        && 0 < length <= size == data.Length && size - length <= overAlloc
        && forall k :: length <= k < size ==> data[k] == blank
    }

    function Contents(): (s: seq<T>)
      requires Valid()
      reads this, data
      ensures |s| == length
    {
      if data == null then [] else data[..length]
    }

    constructor (blank: T, overAlloc: nat)
      ensures Valid() && Contents() == [] && this.blank == blank && this.overAlloc == overAlloc
    {
      this.blank, this.overAlloc := blank, overAlloc;
      data, length, size, refusals := null, 0, 0, 0;
    }

    method Clear()
      requires Valid()
      modifies this
      ensures Valid() && Contents() == [] && refusals == old(refusals)
    {
      if data == null {
        return;
      }
      data := null;
      length, size := 0, 0;
    }

    /** The allocation of sz items. */
    method NewItems(sz: nat) returns (items: array?<T>)
      modifies this`refusals
      ensures items == null ==> refusals == old(refusals) + 1
      ensures items != null ==> fresh(items) && items.Length == sz && refusals == old(refusals)
                                && forall k :: 0 <= k < sz ==> items[k] == blank
    {
      var granted: bool := *;
      if !granted {
        refusals := refusals + 1;
        return null;
      }
      items := new T[sz](_ => blank);
    }

    /** A new buffer for len items, the first ones copied. The items may come from the present buffer. */
    method Assign(len: nat, items: Option<seq<T>>, count: nat := 0) returns (ok: bool)
      requires Valid()
      requires items.Some? ==> CopyCount(len, count) <= |items.value|
      modifies this
      ensures Valid() && (data == null || data == old(data) || fresh(data))
      ensures ok <==> refusals == old(refusals)
      ensures !ok ==> refusals == old(refusals) + 1
      ensures len == 0 ==> ok
      ensures size == if ok && len != 0 then len + overAlloc else old(size)
      ensures Contents() == if !ok || len == 0 then old(Contents())
                            else if items.None? then Blanks(blank, len)
                            else var n := if 0 < count < len then count else len;
                                 items.value[..n] + Blanks(blank, len - n)
    {
      if len == 0 {
        return true;
      }
      var sz := len + overAlloc;
      var tmp := NewItems(sz);
      if tmp == null {
        return false;
      }
      if items.Some? {
        var n := CopyCount(len, count);
        forall k | 0 <= k < n {
          tmp[k] := items.value[k];
        }
        assert tmp[..len] == items.value[..n] + Blanks(blank, len - n);
      } else {
        assert tmp[..len] == Blanks(blank, len);
      }
      data := tmp;
      length := len;
      size := sz;
      ok := true;
    }

    method Resize(len: nat) returns (ok: bool)
      requires Valid()
      modifies this, data
      ensures Valid() && (data == null || data == old(data) || fresh(data))
      ensures ok <==> refusals == old(refusals)
      ensures !ok ==> refusals == old(refusals) + 1
      ensures !NeedsMemory(len, old(length), old(size), overAlloc) ==> ok && data == old(data)
      ensures size == SizeFor(len, old(length), old(size), overAlloc, ok)
      ensures Contents() == if ok then Resized(old(Contents()), len, blank) else old(Contents())
      ensures length == if ok && len != 0 then len else old(length)
      ensures forall i :: 0 <= i < length ==>
                Contents()[i] == if i < old(length) then old(Contents())[i] else blank
      ensures len <= old(size) && (len >= old(length) || old(size) - len <= overAlloc) ==> ok && size == old(size)
      ensures ok && len > old(size) ==> size == len + overAlloc
    {
      if len == 0 || len == length {
        return true;
      }
      if len > size {
        ok := Assign(len, if data == null then None else Some(data[..length]), length);
        return;
      }
      if length > len {
        if size - len > overAlloc {
          ok := Assign(len, Some(data[..length]), length);
          assert Blanks(blank, 0) == [];
          return;
        }
        Fill(len, length - len);
      }
      length := len;
      ok := true;
    }

    /** Reset count items from offs on, as many as there are. */
    method Fill(offs: nat, count: nat)
      requires Valid() && data != null
      modifies data
      ensures forall k :: 0 <= k < data.Length ==>
                data[k] == if offs <= k < offs + count && k < length then blank else old(data[k])
    {
      if count == 0 || offs >= length {
        return;
      }
      var n := if count <= length - offs then count else length - offs;
      forall k | offs <= k < offs + n {
        data[k] := blank;
      }
    }

    method RemoveLast(count: nat) returns (ok: bool)
      requires Valid()
      modifies this, data
      ensures Valid() && (data == null || data == old(data) || fresh(data))
      ensures ok <==> refusals == old(refusals)
      ensures !ok ==> refusals == old(refusals) + 1
      ensures count >= old(length) || old(size) - (old(length) - count) <= overAlloc ==> ok
      ensures size == if count >= old(length) then 0
                      else SizeFor(old(length) - count, old(length), old(size), overAlloc, ok)
      ensures Contents() == if !ok then old(Contents())
                            else old(Contents())[..if count < old(length) then old(length) - count else 0]
    {
      if count == 0 {
        return true;
      }
      if count < length {
        ok := Resize(length - count);
        return;
      }
      Clear();
      ok := true;
    }

    /** Append items from elsewhere; appending nothing reports that nothing was appended. */
    method Append(items: seq<T>) returns (ok: bool)
      requires Valid()
      modifies this, data
      ensures Valid() && (data == null || data == old(data) || fresh(data))
      ensures ok <==> items != [] && refusals == old(refusals)
      ensures items == [] ==> refusals == old(refusals)
      ensures refusals == old(refusals) || refusals == old(refusals) + 1
      ensures old(length) + |items| <= old(size) ==> refusals == old(refusals)
      ensures size == SizeFor(old(length) + |items|, old(length), old(size), overAlloc, ok)
      ensures Contents() == if ok then old(Contents()) + items else old(Contents())
    {
      if items == [] {
        return false;
      }
      var n := length;
      ghost var s := Contents();
      ok := Resize(length + |items|);
      if !ok {
        return;
      }
      Put(n, items);
      assert Contents() == s + items;
    }

    /** Copy items over the slots from offs on. */
    method Put(offs: nat, items: seq<T>)
      requires Valid() && data != null && offs + |items| <= length
      modifies data
      ensures Valid()
      ensures forall k :: 0 <= k < length ==>
                data[k] == if offs <= k < offs + |items| then items[k - offs] else old(data[k])
    {
      forall k | 0 <= k < |items| {
        data[offs + k] := items[k];
      }
    }

    /** Append the vector to itself. */
    method AppendSelf() returns (ok: bool)
      requires Valid()
      modifies this, data
      ensures Valid() && (data == null || data == old(data) || fresh(data))
      ensures ok <==> refusals == old(refusals)
      ensures !ok ==> refusals == old(refusals) + 1
      ensures 2 * old(length) <= old(size) ==> ok
      ensures size == SizeFor(2 * old(length), old(length), old(size), overAlloc, ok)
      ensures Contents() == if ok then old(Contents()) + old(Contents()) else old(Contents())
    {
      var n := length;
      ghost var s := Contents();
      ok := Resize(2 * n);
      if n >= length {
        return;
      }
      var k := 0;
      while k < n
        invariant 0 <= k <= n && Valid() && data != null && length == 2 * n
        invariant data == old(data) || fresh(data)
        invariant refusals == old(refusals) && size == SizeFor(2 * n, n, old(size), overAlloc, true)
        invariant forall j :: 0 <= j < n ==> data[j] == s[j]
        invariant forall j :: 0 <= j < k ==> data[n + j] == s[j]
      {
        data[n + k] := data[k];
        k := k + 1;
      }
      assert Contents() == s + s;
    }

    /** The assignment operator. It makes the vector equal to the one assigned if and only if that one is not empty or
        nothing was there before, unless memory is refused. */
    method AssignFrom(t: seq<T>) returns (ok: bool)
      requires Valid()
      modifies this
      ensures Valid() && (data == null || data == old(data) || fresh(data))
      ensures ok <==> refusals == old(refusals)
      ensures !ok ==> refusals == old(refusals) + 1 && t != []
      ensures size == if ok && t != [] then |t| + overAlloc else old(size)
      ensures Contents() == if ok then Assigned(old(Contents()), t) else old(Contents())
      ensures Contents() == if ok && t != [] then t else old(Contents())
      ensures ok ==> (Contents() == t <==> t != [] || old(Contents()) == [])
    {
      ok := Assign(|t|, if t == [] then None else Some(t));
      assert t[..|t|] + Blanks(blank, 0) == t;
    }
  }

  // ---------- runs

  datatype Op<T> =
    | Assign(t: seq<T>)
    | Resize(len: nat)
    | Append(t: seq<T>)
    | AppendSelf
    | RemoveLast(count: nat)
    | Clear

  function After<T>(s: seq<T>, op: Op<T>, granted: bool, blank: T): seq<T> {
    match op
    case Assign(t) => if granted then Assigned(s, t) else s
    case Resize(len) => if granted then Resized(s, len, blank) else s
    case Append(t) => if granted then s + t else s
    case AppendSelf => if granted then s + s else s
    case RemoveLast(count) => if granted then s[..if count < |s| then |s| - count else 0] else s
    case Clear => []
  }

  function AfterAll<T>(s: seq<T>, ops: seq<Op<T>>, granted: seq<bool>, blank: T): seq<T>
    requires |ops| == |granted|
    decreases |ops|
  {
    if ops == [] then s else AfterAll(After(s, ops[0], granted[0], blank), ops[1..], granted[1..], blank)
  }

  /** The operations that allocate, on len items in size slots. */
  predicate Asks<T>(op: Op<T>, len: nat, size: nat, overAlloc: nat) {
    match op
    case Assign(t) => t != []
    case Resize(n) => NeedsMemory(n, len, size, overAlloc)
    case Append(t) => NeedsMemory(len + |t|, len, size, overAlloc)
    case AppendSelf => NeedsMemory(2 * len, len, size, overAlloc)
    case RemoveLast(count) => count < len && NeedsMemory(len - count, len, size, overAlloc)
    case Clear => false
  }

  /** The slots after an operation, with newLen items left. */
  function SizeAfter<T>(op: Op<T>, len: nat, size: nat, overAlloc: nat, newLen: nat, granted: bool): nat {
    if granted && Asks(op, len, size, overAlloc) then newLen + overAlloc
    else if op.Clear? || (op.RemoveLast? && len <= op.count) then 0
    else size
  }

  /** Along the run of a plain sequence s in size slots, only operations that allocate are refused. */
  predicate RefusedWhenAsked<T>(s: seq<T>, size: nat, overAlloc: nat, ops: seq<Op<T>>, granted: seq<bool>, blank: T)
    requires |ops| == |granted|
    decreases |ops|
  {
    if ops == [] then true
    else
      var next := After(s, ops[0], granted[0], blank);
      var nextSize := SizeAfter(ops[0], |s|, size, overAlloc, |next|, granted[0]);
      && (granted[0] || Asks(ops[0], |s|, size, overAlloc))
      && RefusedWhenAsked(next, nextSize, overAlloc, ops[1..], granted[1..], blank)
  }

  /** The operations that add items. */
  method Grow<T>(v: GenericVector<T>, op: Op<T>) returns (ghost granted: bool)
    requires v.Valid() && (op.Append? || op.AppendSelf?)
    modifies v, v.data
    ensures v.Valid() && (v.data == null || v.data == old(v.data) || fresh(v.data))
    ensures granted <==> v.refusals == old(v.refusals)
    ensures !granted ==> v.refusals == old(v.refusals) + 1 && Asks(op, old(v.length), old(v.size), v.overAlloc)
    ensures v.size == SizeAfter(op, old(v.length), old(v.size), v.overAlloc, v.length, granted)
    ensures v.Contents() == After(old(v.Contents()), op, granted, v.blank)
  {
    ghost var before := v.refusals;
    if op.Append? {
      var _ := v.Append(op.t);
      assert op.t == [] ==> old(v.Contents()) + op.t == old(v.Contents());
    } else {
      var _ := v.AppendSelf();
    }
    granted := v.refusals == before;
  }

  /** One operation; granted tells whether the memory it asked for, if any, was granted. */
  method Step<T>(v: GenericVector<T>, op: Op<T>) returns (ghost granted: bool)
    requires v.Valid()
    modifies v, v.data
    ensures v.Valid() && (v.data == null || v.data == old(v.data) || fresh(v.data))
    ensures granted <==> v.refusals == old(v.refusals)
    ensures !granted ==> v.refusals == old(v.refusals) + 1 && Asks(op, old(v.length), old(v.size), v.overAlloc)
    ensures v.size == SizeAfter(op, old(v.length), old(v.size), v.overAlloc, v.length, granted)
    ensures v.Contents() == After(old(v.Contents()), op, granted, v.blank)
  {
    ghost var before := v.refusals;
    granted := true;
    match op {
      case Assign(t) =>
        var _ := v.AssignFrom(t);
        granted := v.refusals == before;
      case Resize(len) =>
        var _ := v.Resize(len);
        granted := v.refusals == before;
      case Append(_) =>
        granted := Grow(v, op);
      case AppendSelf =>
        granted := Grow(v, op);
      case RemoveLast(count) =>
        var _ := v.RemoveLast(count);
        granted := v.refusals == before;
      case Clear =>
        v.Clear();
    }
  }

  /** Any run leaves what the same run makes of a plain sequence, with the spare slots bounded and blank, where
      exactly those operations do nothing that were refused memory; and only those can be refused it that need more
      slots than there are, or would leave too many spare. */
  method Run<T>(v: GenericVector<T>, ops: seq<Op<T>>) returns (ghost granted: seq<bool>)
    requires v.Valid()
    modifies v, v.data
    ensures v.Valid() && |granted| == |ops| && (v.data == null || v.data == old(v.data) || fresh(v.data))
    ensures v.refusals == old(v.refusals) + Refused(granted)
    ensures RefusedWhenAsked(old(v.Contents()), old(v.size), v.overAlloc, ops, granted, v.blank)
    ensures v.Contents() == AfterAll(old(v.Contents()), ops, granted, v.blank)
    decreases |ops|
  {
    if ops == [] {
      return [];
    }
    ghost var first := Step(v, ops[0]);
    ghost var rest := Run(v, ops[1..]);
    granted := [first] + rest;
    assert granted[1..] == rest;
  }

  /** Slots given up by shrinking come back blank. */
  lemma ShrinkAndGrow<T>(s: seq<T>, m: nat, n: nat, blank: T)
    requires 0 < m <= |s| && m <= n
    ensures Resized(Resized(s, m, blank), n, blank) == s[..m] + Blanks(blank, n - m)
  {
    assert Blanks(blank, 0) == [];
  }
}
