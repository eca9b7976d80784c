/** SliceVector and its reference-counted storage (yatemath.h:281-381, 412-1276). Many vectors are windows on
    shared storages; the invariant relates every storage's counter to all the vectors of a pool. */
module SliceVectors {
  import opened Bytes

  function One(b: bool): nat {
    if b then 1 else 0
  }

  /** Two sets that differ at most in one element. */
  lemma SizeAfterMove<A>(before: set<A>, after: set<A>, x: A)
    requires before - {x} == after - {x}
    ensures |after| == |before| - One(x in before) + One(x in after)
  {
    assert |before - {x}| == |before| - One(x in before);
    assert |after - {x}| == |after| - One(x in after);
  }

  lemma SameSize<A>(s: set<A>, a: A, b: A)
    requires a in s && b !in s
    ensures |s - {a} + {b}| == |s|
  {
  }

  class Allocator {
    ghost var refusals: nat  // how many requests for memory failed so far

    constructor ()
      ensures refusals == 0
    {
      refusals := 0;
    }
  }

  class RefStorage<T> {
    const cells: array<T>
    var refcount: nat

    constructor (cells: array<T>)
      ensures this.cells == cells && refcount == 1
    {
      this.cells := cells;
      refcount := 1;
    }

    /** RefObject::ref: fails on an object that is being deleted. */
    method Ref() returns (ok: bool)
      modifies this
      ensures ok == (old(refcount) > 0) && refcount == old(refcount) + if ok then 1 else 0
    {
      if refcount > 0 {
        refcount := refcount + 1;
        return true;
      }
      ok := false;
    }
  }

  /** All the vectors in use, all the storages ever built, and those of them already deleted. */
  class Pool<T> {
    const zero: T  // an element of zero bytes
    const memory: Allocator
    ghost var vectors: set<SliceVector<T>>
    ghost var storages: set<RefStorage<T>>
    ghost var deleted: set<RefStorage<T>>

    constructor (zero: T)
      ensures this.zero == zero && vectors == {} && storages == {} && deleted == {}
      ensures fresh(memory) && memory.refusals == 0
    {
      this.zero := zero;
      memory := new Allocator();
      vectors, storages, deleted := {}, {}, {};
    }

    ghost function Holders(st: RefStorage<T>): set<SliceVector<T>>
      reads this, vectors
    {
      set v | v in vectors && v.storage == st
    }

    /** Every storage counts exactly the vectors that hold it, and is deleted exactly when nobody does. */
    ghost predicate Counted()
      reads this, vectors, storages
    {
      forall st | st in storages :: st.refcount == |Holders(st)| && (st in deleted <==> st.refcount == 0)
    }

    /** Every vector is empty or a window inside a storage of the pool; storages do not share cells. */
    ghost predicate Windowed()
      reads this, vectors
    {
      && deleted <= storages
      && (forall v | v in vectors :: v.Window() && (v.storage != null ==> v.storage in storages))
      && (forall s, t | s in storages && t in storages && s != t :: s.cells != t.cells)
    }

    ghost predicate Inv()
      reads this, vectors, storages
    {
      Windowed() && Counted()
    }

    /** A window never looks into a deleted storage. */
    lemma HeldIsLive(v: SliceVector<T>)
      requires Inv() && v in vectors && v.storage != null
      ensures v.storage.refcount > 0 && v.storage !in deleted
    {
      assert v in Holders(v.storage);
    }

    /** Once the last vector is gone every storage has been deleted. */
    lemma NothingLeaks()
      requires Inv() && vectors == {}
      ensures deleted == storages
    {
      forall st | st in storages ensures st in deleted {
        assert Holders(st) == {};
      }
    }

    /** RefObject::deref, called by a vector that gives up the storage. */
    method Deref(st: RefStorage<T>)
      requires st.refcount > 0 && st !in deleted
      modifies this`deleted, st
      ensures st.refcount == old(st.refcount) - 1
      ensures deleted == if st.refcount == 0 then old(deleted) + {st} else old(deleted)
    {
      st.refcount := st.refcount - 1;
      if st.refcount == 0 {
        deleted := deleted + {st};
      }
    }
  }

  class SliceVector<T> {
    var storage: RefStorage?<T>
    var data: Option<nat>  // the data pointer, as an index in the storage's cells
    var length: nat
    var maxLen: nat

    ghost predicate Window()
      reads this
    {
      if storage == null then data == None && length == 0 && maxLen == 0
      else data.Some? && length <= maxLen && 0 < maxLen && data.value + maxLen <= storage.cells.Length
    }

    function Contents(): (s: seq<T>)
      requires Window()
      reads this, if storage == null then {} else {storage.cells}
      ensures |s| == length
    {
      if storage == null then [] else storage.cells[data.value..data.value + length]
    }

    constructor (pool: Pool<T>)
      requires pool.Inv()
      modifies pool`vectors
      ensures pool.Inv() && pool.vectors == old(pool.vectors) + {this}
      ensures storage == null && Window() && Contents() == []
    {
      storage, data, length, maxLen := null, None, 0, 0;
      new;
      pool.vectors := pool.vectors + {this};
      forall st | st in pool.storages ensures pool.Holders(st) == old(pool.Holders(st)) {
      }
    }

    /** Index of data if len elements are available from offs. */
    function DataAt(offs: nat, len: nat): (r: Option<nat>)
      reads this
    {
      if len != 0 && length != 0 && offs + len <= length && data.Some? then Some(data.value + offs) else None
    }

    /** Point to data in the storage held; without a pointer, give the storage up. */
    method SetData(pool: Pool<T>, d: Option<nat>, len: nat, max: nat) returns (ok: bool)
      requires this in pool.vectors
      requires storage != null && d.None? ==> storage.refcount > 0 && storage !in pool.deleted
      modifies this, pool`deleted, storage
      ensures ok == d.Some? && data == d
      ensures if d.Some? then
                && length == len && maxLen == max && storage == old(storage) && pool.deleted == old(pool.deleted)
                && (storage != null ==> storage.refcount == old(storage.refcount))
              else
                && length == 0 && maxLen == 0 && storage == null
                && (old(storage) != null ==> old(storage).refcount == old(storage.refcount) - 1)
                && pool.deleted == if old(storage) != null && old(storage).refcount == 0
                                   then old(pool.deleted) + {old(storage)} else old(pool.deleted)
    {
      data := d;
      if data.Some? {
        length := len;
        maxLen := max;
      } else {
        length := 0;
        maxLen := 0;
        if storage != null {
          pool.Deref(storage);
          storage := null;
        }
      }
      ok := data.Some?;
    }

    /** Give up the storage, if any. */
    method Release(pool: Pool<T>)
      requires pool.Inv() && this in pool.vectors
      modifies this, pool`deleted, storage
      ensures pool.Inv() && storage == null && Window()
      ensures old(storage) != null ==> old(storage).refcount == old(storage.refcount) - 1
    {
      if storage != null {
        pool.HeldIsLive(this);
      }
      ghost var st := storage;
      var _ := SetData(pool, None, 0, 0);
      if st != null {
        assert pool.Holders(st) == old(pool.Holders(st)) - {this};
      }
      forall t | t in pool.storages && t != st ensures pool.Holders(t) == old(pool.Holders(t)) {
      }
    }

    /** A new storage for max elements, with no cells when memory is refused. */
    static method NewStorage(pool: Pool<T>, len: nat, src: Option<seq<T>>, max: nat) returns (st: RefStorage<T>)
      requires src.Some? ==> len <= |src.value|
      requires len <= max && 0 < max
      modifies pool.memory
      ensures fresh(st) && fresh(st.cells) && st.refcount == 1
      ensures if pool.memory.refusals == old(pool.memory.refusals) then
                st.cells.Length == max
                && st.cells[..] == (if src.Some? then src.value[..len] else seq(len, _ => pool.zero))
                                   + seq(max - len, _ => pool.zero)
              else pool.memory.refusals == old(pool.memory.refusals) + 1 && st.cells.Length == 0
    {
      var granted: bool := *;
      if !granted {
        pool.memory.refusals := pool.memory.refusals + 1;
      }
      var cells := new T[if granted then max else 0](_ => pool.zero);
      if granted && src.Some? {
        forall k | 0 <= k < len {
          cells[k] := src.value[k];
        }
      }
      st := new RefStorage<T>(cells);
    }

    /** Hold a storage that was just built, or give it up again when it has no cells. */
    method Hold(pool: Pool<T>, st: RefStorage<T>, len: nat, max: nat) returns (ok: bool)
      requires pool.Inv() && this in pool.vectors && storage == null
      requires st.refcount == 1 && st !in pool.storages && len <= max && 0 < max
      requires forall t | t in pool.storages :: t.cells != st.cells
      requires forall v | v in pool.vectors :: v.storage != st
      requires st.cells.Length == 0 || st.cells.Length == max
      modifies this, pool`storages, pool`deleted, st
      ensures pool.Inv()
      ensures ok == (st.cells.Length != 0) && pool.storages == old(pool.storages) + {st}
      ensures if ok then storage == st && st.refcount == 1 && data == Some(0) && length == len && maxLen == max
              else storage == null
    {
      storage := st;
      pool.storages := pool.storages + {st};
      ok := SetData(pool, if st.cells.Length != 0 then Some(0) else None, len, max);
      assert pool.Holders(st) == if ok then {this} else {};
      forall t | t in old(pool.storages) ensures pool.Holders(t) == old(pool.Holders(t)) {
      }
    }

    /** The vector, without storage so far, gets a new one; it stays empty when memory is refused or not needed. */
    method InitStorage(pool: Pool<T>, len: nat, src: Option<seq<T>>, max: nat) returns (ok: bool)
      requires pool.Inv() && this in pool.vectors && storage == null
      requires src.Some? ==> len <= |src.value|
      modifies this, pool`storages, pool`deleted, pool.memory
      ensures pool.Inv() && Window()
      ensures ok <==> 0 < len + max && pool.memory.refusals == old(pool.memory.refusals)
      ensures pool.memory.refusals == old(pool.memory.refusals) ||
              (pool.memory.refusals == old(pool.memory.refusals) + 1 && 0 < len + max)
      ensures pool.storages >= old(pool.storages)
      ensures forall st | st in pool.storages - old(pool.storages) :: fresh(st) && fresh(st.cells)
      ensures !ok ==> storage == null
      ensures ok ==>
                && fresh(storage) && fresh(storage.cells) && data == Some(0)
                && length == len && maxLen == (if max < len then len else max) == storage.cells.Length
                && storage.cells[..] == (if src.Some? then src.value[..len] else seq(len, _ => pool.zero))
                                        + seq(maxLen - len, _ => pool.zero)
    {
      var m := if max < len then len else max;
      if m == 0 {
        return false;
      }
      var st := NewStorage(pool, len, src, m);
      ok := Hold(pool, st, len, m);
    }

    /** Hold another storage of the pool instead of the present one. */
    method Reseat(pool: Pool<T>, st: RefStorage<T>, d: nat, n: nat) returns (ok: bool)
      requires pool.Inv() && this in pool.vectors && st in pool.storages && st != storage
      requires st.refcount > 0 && 0 < n && d + n <= st.cells.Length
      modifies this, pool`deleted, storage, st
      ensures pool.Inv()
      ensures ok && storage == st && data == Some(d) && length == maxLen == n
    {
      ghost var before := storage;
      var reffed := st.Ref();
      if !reffed {
        assert false;
      }
      if storage != null {
        assert this in old(pool.Holders(storage));
        pool.Deref(storage);
      }
      storage := st;
      ok := SetData(pool, Some(d), n, n);
      forall t | t in pool.storages
        ensures t.refcount == |pool.Holders(t)| && (t in pool.deleted <==> t.refcount == 0)
      {
        SizeAfterMove(old(pool.Holders(t)), pool.Holders(t), this);
      }
    }

    /** Become a window on another vector's data. With `clear` set, an impossible window empties this vector. */
    method InitSlice(pool: Pool<T>, clear: bool, other: SliceVector<T>, offs: nat, len: nat) returns (ok: bool)
      requires pool.Inv() && this in pool.vectors && other in pool.vectors
      modifies this, pool`deleted, storage, other.storage
      ensures pool.Inv()
      ensures var n := old(if len == 0 then other.length else len);
              if n == 0 || offs + n > old(other.length) then
                ok == (n == 0) && if clear then storage == null else unchanged(this)
              else
                && ok && storage == old(other.storage) && data == Some(old(other.data).value + offs)
                && length == maxLen == n
    {
      var n := len;
      if n == 0 {
        n := other.length;
      }
      var d := other.DataAt(offs, n);
      if d.None? {
        if clear {
          Release(pool);
        }
        return n == 0;
      }
      pool.HeldIsLive(other);
      if storage == other.storage {
        ok := SetData(pool, d, n, n);
        forall t | t in pool.storages ensures pool.Holders(t) == old(pool.Holders(t)) {
        }
      } else {
        ok := Reseat(pool, other.storage, d.value, n);
      }
    }

    method Resize(len: nat) returns (ok: bool)
      requires Window()
      modifies this`length
      ensures Window() && ok == (len <= maxLen) && length == if ok then len else old(length)
    {
      if len <= maxLen {
        length := len;
        return true;
      }
      ok := false;
    }

    method ResetStorage(pool: Pool<T>, len: nat, max: nat) returns (ok: bool)
      requires pool.Inv() && this in pool.vectors
      modifies this, pool`storages, pool`deleted, pool.memory, storage
      ensures pool.Inv() && Window() && pool.storages >= old(pool.storages)
      ensures ok <==> 0 < len + max && pool.memory.refusals == old(pool.memory.refusals)
      ensures pool.memory.refusals == old(pool.memory.refusals) ||
              (pool.memory.refusals == old(pool.memory.refusals) + 1 && 0 < len + max)
      ensures forall st | st in pool.storages - old(pool.storages) :: fresh(st) && fresh(st.cells)
      ensures if ok then
                && fresh(storage) && data == Some(0)
                && length == len && maxLen == (if max < len then len else max) == storage.cells.Length
                && forall k :: 0 <= k < maxLen ==> storage.cells[k] == pool.zero
              else storage == null
    {
      Release(pool);
      ok := InitStorage(pool, len, None, max);
    }

    /** The destructor. */
    method Destroy(pool: Pool<T>)
      requires pool.Inv() && this in pool.vectors
      modifies this, pool`vectors, pool`deleted, storage
      ensures pool.Inv() && pool.vectors == old(pool.vectors) - {this}
    {
      Release(pool);
      label Released:
      pool.vectors := pool.vectors - {this};
      forall t | t in pool.storages ensures pool.Holders(t) == old@Released(pool.Holders(t)) {
      }
    }

    /** Take over another vector's data; the storage held before is not given up. */
    method Steal(other: SliceVector<T>)
      modifies this, other
      ensures this != other ==> && storage == old(other.storage) && data == old(other.data)
                                && length == old(other.length) && maxLen == old(other.maxLen)
      ensures other.storage == null && other.data == None && other.length == other.maxLen == 0
    {
      storage := other.storage;
      data := other.data;
      length := other.length;
      maxLen := other.maxLen;
      other.storage := null;
      other.data := None;
      other.length, other.maxLen := 0, 0;
    }

    /** Stealing into a vector without storage keeps every counter right. */
    method StealIntoEmpty(pool: Pool<T>, other: SliceVector<T>)
      requires pool.Inv() && this in pool.vectors && other in pool.vectors && storage == null
      modifies this, other
      ensures pool.Inv() && other.storage == null
      ensures this != other ==> && storage == old(other.storage) && data == old(other.data)
                                && length == old(other.length) && maxLen == old(other.maxLen)
    {
      if other.storage == null {
        Steal(other);
        forall t | t in pool.storages ensures pool.Holders(t) == old(pool.Holders(t)) {
        }
      } else {
        HandOver(pool, other);
      }
    }

    /** The case that the other vector holds a storage. */
    method HandOver(pool: Pool<T>, other: SliceVector<T>)
      requires pool.Inv() && this in pool.vectors && other in pool.vectors && storage == null && other.storage != null
      modifies this, other
      ensures pool.Inv() && other.storage == null
      ensures storage == old(other.storage) && data == old(other.data)
              && length == old(other.length) && maxLen == old(other.maxLen)
    {
      ghost var theirs := other.storage;
      ghost var holders := pool.Holders(theirs);
      Steal(other);
      SameSize(holders, other, this);
      assert pool.Holders(theirs) == holders - {other} + {this};
      forall t | t in pool.storages && t != theirs ensures pool.Holders(t) == old(pool.Holders(t)) {
      }
    }

    /** Stealing into a vector that holds a storage leaves that storage with one holder less than it counts, so
        it can never be deleted. Together with the method above: the counters stay right if and only if the
        stealing vector holds nothing. */
    method StealLeaks(pool: Pool<T>, other: SliceVector<T>)
      requires pool.Inv() && this in pool.vectors && other in pool.vectors && storage != null
      modifies this, other
      ensures pool.Windowed() && !pool.Counted()
      ensures old(storage).refcount == |pool.Holders(old(storage))| + 1
    {
      ghost var mine, theirs := storage, other.storage;
      Steal(other);
      ghost var leaver := if theirs == mine then other else this;
      assert leaver in old(pool.Holders(mine));
      assert pool.Holders(mine) == old(pool.Holders(mine)) - {leaver};
    }

    /** Store one element. It shows up at every position, of every vector, that looks at the same cell, and
        nowhere else. */
    method Write(pool: Pool<T>, i: nat, x: T)
      requires pool.Inv() && this in pool.vectors && i < length
      modifies storage.cells
      ensures pool.Inv()
      ensures storage.cells[..] == old(storage.cells[..])[data.value + i := x]
      ensures forall v, j | v in pool.vectors && 0 <= j < v.length ::
                v.Contents()[j] ==
                if v.storage == storage && v.data.value + j == data.value + i then x else old(v.Contents())[j]
    {
      storage.cells[data.value + i] := x;
    }

    /** RefStorage::set on the cells of this vector's storage. */
    method SetCells(offs: nat, x: seq<T>)
      requires storage != null && offs + |x| <= storage.cells.Length
      modifies storage.cells
      ensures forall k :: 0 <= k < storage.cells.Length ==>
                storage.cells[k] == if offs <= k < offs + |x| then x[k - offs] else old(storage.cells[k])
    {
      forall k | 0 <= k < |x| {
        storage.cells[offs + k] := x[k];
      }
    }

    /** A new storage that holds c1, c2 and c3 one after the other. */
    method InitConcat(pool: Pool<T>, c1: seq<T>, c2: seq<T>, c3: seq<T>) returns (ok: bool)
      requires pool.Inv() && this in pool.vectors && storage == null
      modifies this, pool`storages, pool`deleted, pool.memory
      ensures pool.Inv() && pool.storages >= old(pool.storages)
      ensures forall st | st in pool.storages - old(pool.storages) :: fresh(st) && fresh(st.cells)
      ensures ok <==> 0 < |c1| + |c2| + |c3| && pool.memory.refusals == old(pool.memory.refusals)
      ensures pool.memory.refusals == old(pool.memory.refusals) ||
              (pool.memory.refusals == old(pool.memory.refusals) + 1 && 0 < |c1| + |c2| + |c3|)
      ensures ok == (storage != null)
      ensures ok ==> fresh(storage) && data == Some(0) && length == maxLen == storage.cells.Length
      ensures Contents() == if ok then c1 + c2 + c3 else []
    {
      ok := InitStorage(pool, |c1|, if c1 == [] then None else Some(c1), |c1| + |c2| + |c3|);
      if ok {
        FillFrom(pool, c1, c2, c3);
      }
    }

    /** The part of the concatenating constructors that follows the allocation. */
    method FillFrom(pool: Pool<T>, c1: seq<T>, c2: seq<T>, c3: seq<T>)
      requires pool.Inv() && this in pool.vectors && storage != null
      requires length == |c1| && maxLen == storage.cells.Length == |c1| + |c2| + |c3| && data == Some(0)
      requires c1 <= storage.cells[..]
      modifies this`length, storage.cells
      ensures pool.Inv() && Contents() == c1 + c2 + c3 && length == maxLen
    {
      var _ := Resize(maxLen);
      SetCells(|c1|, c2);
      SetCells(|c1| + |c2|, c3);
      assert pool.Counted() by {
        assert forall t | t in pool.storages :: pool.Holders(t) == old(pool.Holders(t));
      }
      assert Contents() == c1 + c2 + c3;
    }

    /** The concatenating constructors, for two vectors and (with v3) for three. */
    static method Concatenate(pool: Pool<T>, v1: SliceVector<T>, v2: SliceVector<T>, v3: SliceVector?<T>)
      returns (v: SliceVector<T>)
      requires pool.Inv() && v1 in pool.vectors && v2 in pool.vectors && (v3 != null ==> v3 in pool.vectors)
      modifies pool, pool.memory
      ensures pool.Inv() && fresh(v) && pool.vectors == old(pool.vectors) + {v} && pool.storages >= old(pool.storages)
      ensures forall st | st in pool.storages - old(pool.storages) :: fresh(st) && fresh(st.cells)
      ensures pool.memory.refusals == old(pool.memory.refusals) ||
              (pool.memory.refusals == old(pool.memory.refusals) + 1
               && old(ContentsOf(v1) + ContentsOf(v2) + ContentsOf(v3)) != [])
      ensures v.Contents() == if pool.memory.refusals == old(pool.memory.refusals) then
                                old(ContentsOf(v1) + ContentsOf(v2) + ContentsOf(v3))
                              else []
      ensures v.storage != null ==>
                fresh(v.storage) && v.data == Some(0) && v.length == v.maxLen == v.storage.cells.Length
      ensures v.storage == null <==> v.Contents() == []
    {
      var c1, c2, c3 := ContentsOf(v1), ContentsOf(v2), ContentsOf(v3);
      v := new SliceVector<T>(pool);
      var _ := v.InitConcat(pool, c1, c2, c3);
    }

    /** The elements a data pointer gives access to, none for a null pointer. */
    static function ContentsOf(v: SliceVector?<T>): seq<T>
      requires v != null ==> v.Window()
      reads v, if v == null || v.storage == null then {} else {v.storage.cells}
    {
      if v == null then [] else v.Contents()
    }
  }
}
