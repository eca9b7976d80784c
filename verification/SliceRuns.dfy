/** Whole runs on slice vectors against the same run on plain windows: a list of stores, each a sequence, and for
    every vector the part of a store that it shows, if any. */
module SliceRuns {
  import opened Bytes
  import opened SliceVectors
  import opened Grants

  datatype Slot = Slot(store: nat, offs: nat, len: nat, max: nat)

  datatype State<T> = State(stores: seq<seq<T>>, slots: seq<Option<Slot>>)

  datatype Op<T> =
    | Build(len: nat, max: nat)
    | SliceOf(src: nat, offs: nat, len: nat)
    | Assign(dst: nat, src: nat, offs: nat, len: nat)
    | Resize(dst: nat, len: nat)
    | Reset(dst: nat, len: nat, max: nat)
    | Steal(dst: nat, src: nat)
    | Concat(src: nat, src2: nat)
    | Write(dst: nat, i: nat, x: T)
    | Drop(dst: nat)

  // ---------- the run on plain windows

  function Filled<T>(zero: T, n: nat): (s: seq<T>)
    ensures |s| == n
  {
    seq(n, _ => zero)
  }

  /** The elements a window shows. */
  function Seen<T>(stores: seq<seq<T>>, slot: Option<Slot>): seq<T> {
    match slot
    case None => []
    case Some(s) =>
      if s.store < |stores| && s.offs + s.len <= |stores[s.store]| then stores[s.store][s.offs..s.offs + s.len] else []
  }

  /** The elements a vector shows. */
  function Shown<T>(st: State<T>, k: nat): seq<T>
    requires k < |st.slots|
  {
    Seen(st.stores, st.slots[k])
  }

  /** The window cut from a slot; length 0 means as long as the whole slot. */
  function Cut(slot: Option<Slot>, offs: nat, len: nat): Option<Slot> {
    if slot.None? then None
    else
      var s := slot.value;
      var n := if len == 0 then s.len else len;
      if n == 0 || offs + n > s.len then None else Some(Slot(s.store, s.offs + offs, n, n))
  }

  /** A new store, unless it would be empty or memory is refused, with the window on its first len elements. */
  function WithStore<T>(st: State<T>, k: nat, cells: seq<T>, len: nat, granted: bool): State<T>
    requires k < |st.slots|
  {
    if cells == [] || !granted then State(st.stores, st.slots[k := None])
    else State(st.stores + [cells], st.slots[k := Some(Slot(|st.stores|, 0, len, |cells|))])
  }

  function WithVector<T>(st: State<T>): State<T> {
    State(st.stores, st.slots + [None])
  }

  /** The state after one operation. Operations that name no vector change nothing, and neither does a steal into a
      vector that holds a storage: there it is not defined (see StealLeaks). */
  function After<T>(st: State<T>, op: Op<T>, granted: bool, zero: T): State<T> {
    var n := |st.slots|;
    match op
    case Build(len, max) => WithStore(WithVector(st), n, Filled(zero, if max < len then len else max), len, granted)
    case SliceOf(src, offs, len) =>
      if src < n then State(st.stores, st.slots + [Cut(st.slots[src], offs, len)]) else st
    case Assign(dst, src, offs, len) =>
      if dst < n && src < n then State(st.stores, st.slots[dst := Cut(st.slots[src], offs, len)]) else st
    case Resize(dst, len) =>
      if dst < n && st.slots[dst].Some? && len <= st.slots[dst].value.max then
        State(st.stores, st.slots[dst := Some(st.slots[dst].value.(len := len))])
      else st
    case Reset(dst, len, max) =>
      if dst < n then WithStore(st, dst, Filled(zero, if max < len then len else max), len, granted) else st
    case Steal(dst, src) =>
      if dst < n && src < n && st.slots[dst] == None then
        State(st.stores, st.slots[dst := st.slots[src]][src := None])
      else st
    case Concat(src, src2) =>
      if src < n && src2 < n then
        var cells := Shown(st, src) + Shown(st, src2);
        WithStore(WithVector(st), n, cells, |cells|, granted)
      else st
    case Write(dst, i, x) =>
      if dst < n && st.slots[dst].Some? && i < st.slots[dst].value.len then
        var s := st.slots[dst].value;
        if s.store < |st.stores| && s.offs + i < |st.stores[s.store]| then
          State(st.stores[s.store := st.stores[s.store][s.offs + i := x]], st.slots)
        else st
      else st
    case Drop(dst) =>
      if dst < n then State(st.stores, st.slots[..dst] + st.slots[dst + 1..]) else st
  }

  /** The operations that allocate. */
  predicate Asks<T>(st: State<T>, op: Op<T>) {
    match op
    case Build(len, max) => 0 < len + max
    case Reset(_, len, max) => 0 < len + max
    case Concat(src, src2) => src < |st.slots| && src2 < |st.slots| && Shown(st, src) + Shown(st, src2) != []
    case _ => false
  }

  function AfterAll<T>(st: State<T>, ops: seq<Op<T>>, granted: seq<bool>, zero: T): State<T>
    requires |ops| == |granted|
    decreases |ops|
  {
    if ops == [] then st else AfterAll(After(st, ops[0], granted[0], zero), ops[1..], granted[1..], zero)
  }

  /** Only operations that allocate are refused. */
  predicate RefusedWhenAsked<T>(st: State<T>, ops: seq<Op<T>>, granted: seq<bool>, zero: T)
    requires |ops| == |granted|
    decreases |ops|
  {
    ops != [] ==>
      && (granted[0] || Asks(st, ops[0]))
      && RefusedWhenAsked(After(st, ops[0], granted[0], zero), ops[1..], granted[1..], zero)
  }

  // ---------- what windows show

  predicate InStore<T>(st: State<T>, slot: Option<Slot>) {
    slot.Some? ==>
      && slot.value.store < |st.stores| && slot.value.len <= slot.value.max
      && slot.value.offs + slot.value.max <= |st.stores[slot.value.store]|
  }

  /** Every window lies inside its store. */
  predicate Sound<T>(st: State<T>) {
    forall k :: 0 <= k < |st.slots| ==> InStore(st, st.slots[k])
  }

  lemma SoundWithStore<T>(st: State<T>, k: nat, cells: seq<T>, len: nat, granted: bool)
    requires Sound(st) && k < |st.slots| && len <= |cells|
    ensures Sound(WithStore(st, k, cells, len, granted))
  {
    var next := WithStore(st, k, cells, len, granted);
    forall j | 0 <= j < |next.slots| ensures InStore(next, next.slots[j]) {
      assert InStore(st, st.slots[j]);
    }
  }

  lemma SoundWithSlot<T>(st: State<T>, slots: seq<Option<Slot>>)
    requires Sound(st) && forall k :: 0 <= k < |slots| ==> slots[k] in st.slots || InStore(st, slots[k])
    ensures Sound(State(st.stores, slots))
  {
    forall k | 0 <= k < |slots| ensures InStore(State(st.stores, slots), slots[k]) {
      if slots[k] in st.slots {
        var j :| 0 <= j < |st.slots| && st.slots[j] == slots[k];
        assert InStore(st, st.slots[j]);
      }
    }
  }

  /** Windows stay inside their stores. */
  lemma SoundAfter<T>(st: State<T>, op: Op<T>, granted: bool, zero: T)
    requires Sound(st)
    ensures Sound(After(st, op, granted, zero))
  {
    var n, next := |st.slots|, After(st, op, granted, zero);
    match op
    case Build(len, max) =>
      SoundWithSlot(st, st.slots + [None]);
      SoundWithStore(WithVector(st), n, Filled(zero, if max < len then len else max), len, granted);
    case Reset(dst, len, max) =>
      if dst < n {
        SoundWithStore(st, dst, Filled(zero, if max < len then len else max), len, granted);
      }
    case Concat(src, src2) =>
      if src < n && src2 < n {
        var cells := Shown(st, src) + Shown(st, src2);
        SoundWithSlot(st, st.slots + [None]);
        SoundWithStore(WithVector(st), n, cells, |cells|, granted);
      }
    case Write(_, _, _) =>
      forall k | 0 <= k < |next.slots| ensures InStore(next, next.slots[k]) {
        assert InStore(st, st.slots[k]);
      }
    case SliceOf(src, _, _) =>
      assert src < n ==> InStore(st, st.slots[src]);
      SoundWithSlot(st, next.slots);
    case Assign(_, src, _, _) =>
      assert src < n ==> InStore(st, st.slots[src]);
      SoundWithSlot(st, next.slots);
    case Resize(dst, _) =>
      assert dst < n ==> InStore(st, st.slots[dst]);
      SoundWithSlot(st, next.slots);
    case _ =>
      SoundWithSlot(st, next.slots);
  }

  /** A slice shows the elements it was cut from, or nothing when they are not all there. */
  lemma SliceShows<T>(st: State<T>, src: nat, offs: nat, len: nat, granted: bool, zero: T)
    requires Sound(st) && src < |st.slots|
    ensures var all := Shown(st, src);
            var n := if len == 0 then |all| else len;
            Shown(After(st, Op.SliceOf(src, offs, len), granted, zero), |st.slots|)
            == if offs + n <= |all| then all[offs..offs + n] else []
  {
    assert InStore(st, st.slots[src]);
    CutShows(st.stores, st.slots[src], offs, len);
  }

  lemma CutShows<T>(stores: seq<seq<T>>, slot: Option<Slot>, offs: nat, len: nat)
    requires slot.Some? ==>
               slot.value.store < |stores| && slot.value.offs + slot.value.len <= |stores[slot.value.store]|
    ensures var all := Seen(stores, slot);
            var n := if len == 0 then |all| else len;
            Seen(stores, Cut(slot, offs, len)) == if offs + n <= |all| then all[offs..offs + n] else []
  {
    if slot.Some? {
      var s := slot.value;
      var all, n := Seen(stores, slot), if len == 0 then s.len else len;
      assert all == stores[s.store][s.offs..s.offs + s.len];
      if n == 0 || offs + n > s.len {
        assert Cut(slot, offs, len) == None;
      } else {
        assert Seen(stores, Cut(slot, offs, len)) == stores[s.store][s.offs + offs..s.offs + offs + n];
        WindowInWindow(stores[s.store], s.offs, s.len, offs, n);
      }
    }
  }

  lemma WindowInWindow<T>(s: seq<T>, a: nat, len: nat, b: nat, n: nat)
    requires a + len <= |s| && b + n <= len
    ensures s[a..a + len][b..b + n] == s[a + b..a + b + n]
  {
    var inner, whole := s[a..a + len][b..b + n], s[a + b..a + b + n];
    forall k | 0 <= k < n ensures inner[k] == whole[k] {
    }
  }

  /** A write shows in exactly the windows, and at exactly the places, that cover the cell. */
  lemma WriteShows<T>(st: State<T>, dst: nat, i: nat, x: T, granted: bool, zero: T, k: nat, j: nat)
    requires Sound(st) && dst < |st.slots| && i < |Shown(st, dst)| && k < |st.slots| && j < |Shown(st, k)|
    ensures var next := After(st, Op.Write(dst, i, x), granted, zero);
            var s, t := st.slots[dst].value, st.slots[k].value;
            && |Shown(next, k)| == |Shown(st, k)|
            && Shown(next, k)[j] == if s.store == t.store && s.offs + i == t.offs + j then x else Shown(st, k)[j]
  {
    assert InStore(st, st.slots[dst]) && InStore(st, st.slots[k]);
  }

  /** A new vector shows zeros, or the elements of two others, unless memory is refused. */
  lemma NewShows<T>(st: State<T>, len: nat, max: nat, src: nat, src2: nat, granted: bool, zero: T)
    requires Sound(st) && src < |st.slots| && src2 < |st.slots|
    ensures var n, built := |st.slots|, After(st, Op.Build(len, max), granted, zero);
            && |built.slots| == n + 1 && |Shown(built, n)| == (if granted then len else 0)
            && forall i :: 0 <= i < |Shown(built, n)| ==> Shown(built, n)[i] == zero
    ensures var n, joined := |st.slots|, After(st, Op.Concat(src, src2), granted, zero);
            |joined.slots| == n + 1 && Shown(joined, n) == if granted then Shown(st, src) + Shown(st, src2) else []
  {
  }

  /** A vector assigned a slice shows that slice. */
  lemma AssignShows<T>(st: State<T>, dst: nat, src: nat, offs: nat, len: nat, granted: bool, zero: T)
    requires Sound(st) && dst < |st.slots| && src < |st.slots|
    ensures var all := Shown(st, src);
            var n := if len == 0 then |all| else len;
            Shown(After(st, Op.Assign(dst, src, offs, len), granted, zero), dst)
            == if offs + n <= |all| then all[offs..offs + n] else []
  {
    assert InStore(st, st.slots[src]);
    CutShows(st.stores, st.slots[src], offs, len);
  }

  /** What a vector shows after it was resized or reset. */
  lemma ChangedShows<T>(st: State<T>, dst: nat, len: nat, max: nat, granted: bool, zero: T)
    requires Sound(st) && dst < |st.slots|
    ensures var s, s' := Shown(st, dst), Shown(After(st, Op.Resize(dst, len), granted, zero), dst);
            && |s'| == (if st.slots[dst].Some? && len <= st.slots[dst].value.max then len else |s|)
            && forall i :: 0 <= i < |s| && i < |s'| ==> s'[i] == s[i]
    ensures var s' := Shown(After(st, Op.Reset(dst, len, max), granted, zero), dst);
            |s'| == (if granted then len else 0) && forall i :: 0 <= i < |s'| ==> s'[i] == zero
  {
    assert InStore(st, st.slots[dst]);
  }

  /** A vector without a window takes over what another one showed; the vectors behind a dropped one move up. */
  lemma MovedShows<T>(st: State<T>, dst: nat, src: nat, k: nat, granted: bool, zero: T)
    requires Sound(st) && dst < |st.slots| && src < |st.slots|
    ensures st.slots[dst] == None && src != dst ==>
              var next := After(st, Op.Steal(dst, src), granted, zero);
              |next.slots| == |st.slots| && Shown(next, dst) == Shown(st, src) && Shown(next, src) == []
    ensures var next := After(st, Op.Drop(dst), granted, zero);
            |next.slots| == |st.slots| - 1
            && (k < |next.slots| ==> Shown(next, k) == Shown(st, if k < dst then k else k + 1))
  {
  }

  /** All other vectors show what they showed before, whatever the operation, writes and drops aside. */
  lemma OthersShowTheSame<T>(st: State<T>, op: Op<T>, k: nat, granted: bool, zero: T)
    requires Sound(st) && k < |st.slots| && !op.Write? && !op.Drop?
    requires op.Assign? || op.Resize? || op.Reset? ==> k != op.dst
    requires op.Steal? ==> k != op.dst && k != op.src
    ensures var next := After(st, op, granted, zero);
            k < |next.slots| && Shown(next, k) == Shown(st, k)
  {
    assert InStore(st, st.slots[k]);
  }

  // ---------- vectors and windows

  /** The vector is the window. */
  ghost predicate Is<T>(v: SliceVector<T>, slot: Option<Slot>, sts: seq<RefStorage<T>>)
    reads v
  {
    match slot
    case None => v.storage == null
    case Some(s) =>
      && s.store < |sts| && v.storage == sts[s.store] && v.data == Some(s.offs)
      && v.length == s.len && v.maxLen == s.max
  }

  ghost predicate Distinct<A>(s: seq<A>) {
    forall i, j :: 0 <= i < j < |s| ==> s[i] != s[j]
  }

  /** The vectors vs are the windows of the state, on the storages sts, which hold its stores. */
  ghost predicate Related<T>(pool: Pool<T>, vs: seq<SliceVector<T>>, sts: seq<RefStorage<T>>, st: State<T>)
    reads pool, pool.vectors, pool.storages, set s | s in sts :: s.cells, vs
  {
    RelatedBut(pool, vs, sts, st, |vs|)
  }

  /** The same, leaving out vector dst, if there is one. */
  ghost predicate RelatedBut<T>(pool: Pool<T>, vs: seq<SliceVector<T>>, sts: seq<RefStorage<T>>, st: State<T>, dst: nat)
    reads pool, pool.vectors, pool.storages, set s | s in sts :: s.cells, vs
  {
    && pool.Inv() && Distinct(vs) && Distinct(sts)
    && (forall v | v in vs :: v in pool.vectors) && (forall s | s in sts :: s in pool.storages)
    && |sts| == |st.stores| && (forall k :: 0 <= k < |sts| ==> sts[k].cells[..] == st.stores[k])
    && |vs| == |st.slots| && (forall k :: 0 <= k < |vs| && k != dst ==> Is(vs[k], st.slots[k], sts))
  }

  ghost function Of<A>(s: seq<A>): set<A> {
    set x | x in s
  }

  /** The vectors of the pool that are not among vs. */
  ghost function Others<T>(pool: Pool<T>, vs: seq<SliceVector<T>>): set<SliceVector<T>>
    reads pool
  {
    pool.vectors - Of(vs)
  }

  /** A new vector joins the pool and the vectors vs. */
  ghost predicate Joins<T>(vs: seq<SliceVector<T>>, vs': seq<SliceVector<T>>, before: set<SliceVector<T>>,
                           after: set<SliceVector<T>>)
  {
    |vs'| == |vs| + 1 && vs'[..|vs|] == vs && vs'[|vs|] !in before && after == before + {vs'[|vs|]}
  }

  lemma OthersAfterJoin<T>(vs: seq<SliceVector<T>>, vs': seq<SliceVector<T>>, before: set<SliceVector<T>>,
                           after: set<SliceVector<T>>)
    requires Joins(vs, vs', before, after)
    ensures after - Of(vs') == before - Of(vs)
    ensures Of(vs') - Of(vs) <= after - before
  {
    assert vs' == vs + [vs'[|vs|]];
  }

  lemma OthersAfterDrop<T>(vs: seq<SliceVector<T>>, dst: nat, before: set<SliceVector<T>>)
    requires dst < |vs|
    ensures before - {vs[dst]} - Of(vs[..dst] + vs[dst + 1..]) == before - Of(vs)
    ensures Of(vs[..dst] + vs[dst + 1..]) <= Of(vs)
  {
    assert vs == vs[..dst] + [vs[dst]] + vs[dst + 1..];
  }

  lemma ChangeVector<T>(pool: Pool<T>, vs: seq<SliceVector<T>>, sts: seq<RefStorage<T>>, st: State<T>, dst: nat,
                        slot: Option<Slot>)
    requires dst < |vs| && RelatedBut(pool, vs, sts, st, dst) && Is(vs[dst], slot, sts)
    ensures Related(pool, vs, sts, State(st.stores, st.slots[dst := slot]))
  {
  }

  lemma DropVector<T>(pool: Pool<T>, vs: seq<SliceVector<T>>, sts: seq<RefStorage<T>>, st: State<T>, dst: nat)
    requires dst < |vs| && pool.Inv() && Distinct(vs) && Distinct(sts)
    requires forall k :: 0 <= k < |vs| && k != dst ==> vs[k] in pool.vectors
    requires forall s | s in sts :: s in pool.storages
    requires |sts| == |st.stores| && forall k :: 0 <= k < |sts| ==> sts[k].cells[..] == st.stores[k]
    requires |vs| == |st.slots| && forall k :: 0 <= k < |vs| && k != dst ==> Is(vs[k], st.slots[k], sts)
    ensures Related(pool, vs[..dst] + vs[dst + 1..], sts, State(st.stores, st.slots[..dst] + st.slots[dst + 1..]))
  {
    var vs', slots := vs[..dst] + vs[dst + 1..], st.slots[..dst] + st.slots[dst + 1..];
    forall k | 0 <= k < |vs'| ensures Is(vs'[k], slots[k], sts) {
    }
  }

  /** A storage with the given cells joins; no vector of vs shows it yet. */
  lemma AddStore<T>(pool: Pool<T>, vs: seq<SliceVector<T>>, sts: seq<RefStorage<T>>, st: State<T>, dst: nat,
                       t: RefStorage<T>, cells: seq<T>)
    requires RelatedBut(pool, vs, sts, st, dst) && t in pool.storages && t !in sts && t.cells[..] == cells
    ensures RelatedBut(pool, vs, sts + [t], State(st.stores + [cells], st.slots), dst)
  {
  }

  lemma AddVector<T>(pool: Pool<T>, vs: seq<SliceVector<T>>, sts: seq<RefStorage<T>>, st: State<T>,
                     v: SliceVector<T>, slot: Option<Slot>)
    requires Related(pool, vs, sts, st) && v in pool.vectors && v !in vs && Is(v, slot, sts)
    ensures Related(pool, vs + [v], sts, State(st.stores, st.slots + [slot]))
  {
  }

  // ---------- the operations, one by one

  method Build<T>(pool: Pool<T>, vs: seq<SliceVector<T>>, ghost sts: seq<RefStorage<T>>, ghost st: State<T>,
                  len: nat, max: nat)
    returns (vs': seq<SliceVector<T>>, ghost sts': seq<RefStorage<T>>, ghost granted: bool)
    requires Related(pool, vs, sts, st)
    modifies pool, pool.memory
    ensures Joins(vs, vs', old(pool.vectors), pool.vectors)
    ensures fresh(pool.vectors - old(pool.vectors)) && pool.storages >= old(pool.storages)
    ensures forall t | t in pool.storages - old(pool.storages) :: fresh(t) && fresh(t.cells)
    ensures pool.memory.refusals == old(pool.memory.refusals) + if granted then 0 else 1
    ensures granted || Asks(st, Op.Build(len, max))
    ensures Related(pool, vs', sts', After(st, Op.Build(len, max), granted, pool.zero))
  {
    ghost var refusals := pool.memory.refusals;
    var v := new SliceVector<T>(pool);
    var ok := v.InitStorage(pool, len, None, max);
    granted := pool.memory.refusals == refusals;
    vs', sts' := vs + [v], sts;
    ghost var cells := Filled(pool.zero, if max < len then len else max);
    assert Related(pool, vs, sts, st);
    if ok {
      sts' := sts + [v.storage];
      AddStore(pool, vs, sts, st, |vs|, v.storage, cells);
      AddVector(pool, vs, sts', State(st.stores + [cells], st.slots), v, Some(Slot(|st.stores|, 0, len, |cells|)));
    } else {
      AddVector(pool, vs, sts, st, v, None);
    }
    LastSlot(st.slots, None, if ok then Some(Slot(|st.stores|, 0, len, |cells|)) else None);
  }

  lemma LastSlot(slots: seq<Option<Slot>>, before: Option<Slot>, slot: Option<Slot>)
    ensures (slots + [before])[|slots| := slot] == slots + [slot]
  {
  }

  method SliceOf<T>(pool: Pool<T>, vs: seq<SliceVector<T>>, ghost sts: seq<RefStorage<T>>, ghost st: State<T>,
                    src: nat, offs: nat, len: nat)
    returns (vs': seq<SliceVector<T>>)
    requires Related(pool, vs, sts, st) && src < |vs|
    modifies pool, pool.storages
    ensures Joins(vs, vs', old(pool.vectors), pool.vectors)
    ensures fresh(pool.vectors - old(pool.vectors)) && pool.storages == old(pool.storages)
    ensures pool.memory.refusals == old(pool.memory.refusals)
    ensures Related(pool, vs', sts, After(st, Op.SliceOf(src, offs, len), true, pool.zero))
  {
    ghost var slot := Cut(st.slots[src], offs, len);
    assert After(st, Op.SliceOf(src, offs, len), true, pool.zero) == State(st.stores, st.slots + [slot]);
    var v := NewSlice(pool, vs, sts, st, src, offs, len);
    vs' := vs + [v];
    AddVector(pool, vs, sts, st, v, slot);
  }

  /** The new vector of a slice. */
  method NewSlice<T>(pool: Pool<T>, vs: seq<SliceVector<T>>, ghost sts: seq<RefStorage<T>>, ghost st: State<T>,
                     src: nat, offs: nat, len: nat)
    returns (v: SliceVector<T>)
    requires Related(pool, vs, sts, st) && src < |vs|
    modifies pool, pool.storages
    ensures fresh(v) && pool.vectors == old(pool.vectors) + {v} && pool.storages == old(pool.storages)
    ensures pool.memory.refusals == old(pool.memory.refusals)
    ensures Related(pool, vs, sts, st) && Is(v, Cut(st.slots[src], offs, len), sts)
  {
    v := new SliceVector<T>(pool);
    assert Is(vs[src], st.slots[src], sts);
    var _ := v.InitSlice(pool, false, vs[src], offs, len);
  }

  method Assign<T>(pool: Pool<T>, vs: seq<SliceVector<T>>, ghost sts: seq<RefStorage<T>>, ghost st: State<T>,
                   dst: nat, src: nat, offs: nat, len: nat)
    requires Related(pool, vs, sts, st) && dst < |vs| && src < |vs|
    modifies pool, vs[dst], pool.storages
    ensures pool.vectors == old(pool.vectors) && pool.storages == old(pool.storages)
    ensures pool.memory.refusals == old(pool.memory.refusals)
    ensures Related(pool, vs, sts, After(st, Op.Assign(dst, src, offs, len), true, pool.zero))
  {
    assert Is(vs[src], st.slots[src], sts);
    ghost var slot := Cut(st.slots[src], offs, len);
    assert After(st, Op.Assign(dst, src, offs, len), true, pool.zero) == State(st.stores, st.slots[dst := slot]);
    var _ := vs[dst].InitSlice(pool, true, vs[src], offs, len);
    assert RelatedBut(pool, vs, sts, st, dst);
    ChangeVector(pool, vs, sts, st, dst, slot);
  }

  method Resize<T>(pool: Pool<T>, vs: seq<SliceVector<T>>, ghost sts: seq<RefStorage<T>>, ghost st: State<T>,
                   dst: nat, len: nat)
    requires Related(pool, vs, sts, st) && dst < |vs|
    modifies vs[dst]
    ensures Related(pool, vs, sts, After(st, Op.Resize(dst, len), true, pool.zero))
  {
    assert Is(vs[dst], st.slots[dst], sts);
    var _ := vs[dst].Resize(len);
    assert forall t | t in pool.storages :: pool.Holders(t) == old(pool.Holders(t));
  }

  method Reset<T>(pool: Pool<T>, vs: seq<SliceVector<T>>, ghost sts: seq<RefStorage<T>>, ghost st: State<T>,
                  dst: nat, len: nat, max: nat)
    returns (ghost sts': seq<RefStorage<T>>, ghost granted: bool)
    requires Related(pool, vs, sts, st) && dst < |vs|
    modifies pool, pool.memory, vs[dst], pool.storages
    ensures pool.vectors == old(pool.vectors) && pool.storages >= old(pool.storages)
    ensures forall t | t in pool.storages - old(pool.storages) :: fresh(t) && fresh(t.cells)
    ensures pool.memory.refusals == old(pool.memory.refusals) + if granted then 0 else 1
    ensures granted || Asks(st, Op.Reset(dst, len, max))
    ensures Related(pool, vs, sts', After(st, Op.Reset(dst, len, max), granted, pool.zero))
  {
    ghost var refusals := pool.memory.refusals;
    var ok := vs[dst].ResetStorage(pool, len, max);
    granted := pool.memory.refusals == refusals;
    sts' := ResetRelated(pool, vs, sts, st, dst, len, max, granted);
  }

  /** After a reset the vector shows its new storage, if it has one. */
  lemma ResetRelated<T>(pool: Pool<T>, vs: seq<SliceVector<T>>, sts: seq<RefStorage<T>>, st: State<T>,
                        dst: nat, len: nat, max: nat, granted: bool)
    returns (sts': seq<RefStorage<T>>)
    requires dst < |vs| && RelatedBut(pool, vs, sts, st, dst)
    requires vs[dst].storage != null <==> 0 < len + max && granted
    requires vs[dst].storage != null ==>
               && vs[dst].storage in pool.storages && vs[dst].storage !in sts && vs[dst].data == Some(0)
               && vs[dst].length == len && vs[dst].maxLen == (if max < len then len else max)
               && vs[dst].storage.cells[..] == Filled(pool.zero, if max < len then len else max)
    ensures Related(pool, vs, sts', After(st, Op.Reset(dst, len, max), granted, pool.zero))
  {
    ghost var cells := Filled(pool.zero, if max < len then len else max);
    if vs[dst].storage != null {
      var slot := Some(Slot(|st.stores|, 0, len, |cells|));
      sts' := sts + [vs[dst].storage];
      AddStore(pool, vs, sts, st, dst, vs[dst].storage, cells);
      ChangeVector(pool, vs, sts', State(st.stores + [cells], st.slots), dst, slot);
    } else {
      sts' := sts;
      ChangeVector(pool, vs, sts, st, dst, None);
    }
  }

  method Steal<T>(pool: Pool<T>, vs: seq<SliceVector<T>>, ghost sts: seq<RefStorage<T>>, ghost st: State<T>,
                  dst: nat, src: nat)
    requires Related(pool, vs, sts, st) && dst < |vs| && src < |vs| && vs[dst].storage == null
    modifies vs[dst], vs[src]
    ensures Related(pool, vs, sts, After(st, Op.Steal(dst, src), true, pool.zero))
  {
    assert Is(vs[src], st.slots[src], sts) && Is(vs[dst], st.slots[dst], sts);
    vs[dst].StealIntoEmpty(pool, vs[src]);
  }

  lemma ShownIsContents<T>(pool: Pool<T>, vs: seq<SliceVector<T>>, sts: seq<RefStorage<T>>, st: State<T>, k: nat)
    requires Related(pool, vs, sts, st) && k < |vs|
    ensures vs[k].Window() && vs[k].Contents() == Shown(st, k)
  {
    assert Is(vs[k], st.slots[k], sts) && vs[k] in pool.vectors;
  }

  method Concat<T>(pool: Pool<T>, vs: seq<SliceVector<T>>, ghost sts: seq<RefStorage<T>>, ghost st: State<T>,
                   src: nat, src2: nat)
    returns (vs': seq<SliceVector<T>>, ghost sts': seq<RefStorage<T>>, ghost granted: bool)
    requires Related(pool, vs, sts, st) && src < |vs| && src2 < |vs|
    modifies pool, pool.memory
    ensures Joins(vs, vs', old(pool.vectors), pool.vectors)
    ensures fresh(pool.vectors - old(pool.vectors)) && pool.storages >= old(pool.storages)
    ensures forall t | t in pool.storages - old(pool.storages) :: fresh(t) && fresh(t.cells)
    ensures pool.memory.refusals == old(pool.memory.refusals) + if granted then 0 else 1
    ensures granted || Asks(st, Op.Concat(src, src2))
    ensures Related(pool, vs', sts', After(st, Op.Concat(src, src2), granted, pool.zero))
  {
    ghost var cells := Shown(st, src) + Shown(st, src2);
    var v;
    v, granted := Joined(pool, vs, sts, st, src, src2);
    vs', sts' := vs + [v], sts;
    if v.storage != null {
      sts' := sts + [v.storage];
      AddStore(pool, vs, sts, st, |vs|, v.storage, cells);
      AddVector(pool, vs, sts', State(st.stores + [cells], st.slots), v, Some(Slot(|st.stores|, 0, |cells|, |cells|)));
    } else {
      AddVector(pool, vs, sts, st, v, None);
    }
    LastSlot(st.slots, None, if v.storage != null then Some(Slot(|st.stores|, 0, |cells|, |cells|)) else None);
  }

  /** The new vector of a concatenation. */
  method Joined<T>(pool: Pool<T>, vs: seq<SliceVector<T>>, ghost sts: seq<RefStorage<T>>, ghost st: State<T>,
                   src: nat, src2: nat)
    returns (v: SliceVector<T>, ghost granted: bool)
    requires Related(pool, vs, sts, st) && src < |vs| && src2 < |vs|
    modifies pool, pool.memory
    ensures fresh(pool.vectors - old(pool.vectors)) && pool.storages >= old(pool.storages)
    ensures forall t | t in pool.storages - old(pool.storages) :: fresh(t) && fresh(t.cells)
    ensures pool.memory.refusals == old(pool.memory.refusals) + if granted then 0 else 1
    ensures granted || Shown(st, src) + Shown(st, src2) != []
    ensures Related(pool, vs, sts, st) && fresh(v) && v.Window() && pool.vectors == old(pool.vectors) + {v}
    ensures v.storage != null <==> granted && Shown(st, src) + Shown(st, src2) != []
    ensures v.storage != null ==>
              && fresh(v.storage) && v.storage in pool.storages && v.data == Some(0)
              && v.length == v.maxLen == v.storage.cells.Length
              && v.storage.cells[..] == Shown(st, src) + Shown(st, src2)
  {
    ghost var refusals := pool.memory.refusals;
    ghost var cells := Shown(st, src) + Shown(st, src2);
    ShownIsContents(pool, vs, sts, st, src);
    ShownIsContents(pool, vs, sts, st, src2);
    v := SliceVector.Concatenate(pool, vs[src], vs[src2], null);
    granted := pool.memory.refusals == refusals;
    assert cells + [] == cells;
  }

  method Write<T>(pool: Pool<T>, vs: seq<SliceVector<T>>, ghost sts: seq<RefStorage<T>>, ghost st: State<T>,
                  dst: nat, i: nat, x: T)
    requires Related(pool, vs, sts, st) && dst < |vs| && i < vs[dst].length
    modifies if vs[dst].storage == null then {} else {vs[dst].storage.cells}
    ensures Related(pool, vs, sts, After(st, Op.Write(dst, i, x), true, pool.zero))
  {
    assert Is(vs[dst], st.slots[dst], sts) && vs[dst] in pool.vectors;
    vs[dst].Write(pool, i, x);
  }

  method Drop<T>(pool: Pool<T>, vs: seq<SliceVector<T>>, ghost sts: seq<RefStorage<T>>, ghost st: State<T>, dst: nat)
    returns (vs': seq<SliceVector<T>>)
    requires Related(pool, vs, sts, st) && dst < |vs|
    modifies pool, vs[dst], pool.storages
    ensures pool.vectors == old(pool.vectors) - {vs[dst]} && vs' == vs[..dst] + vs[dst + 1..]
    ensures pool.storages == old(pool.storages)
    ensures pool.memory.refusals == old(pool.memory.refusals)
    ensures Related(pool, vs', sts, After(st, Op.Drop(dst), true, pool.zero))
  {
    vs[dst].Destroy(pool);
    vs' := vs[..dst] + vs[dst + 1..];
    DropVector(pool, vs, sts, st, dst);
  }

  // ---------- runs

  /** The operations that make a new vector. */
  method Make<T>(pool: Pool<T>, vs: seq<SliceVector<T>>, ghost sts: seq<RefStorage<T>>, ghost st: State<T>, op: Op<T>)
    returns (vs': seq<SliceVector<T>>, ghost sts': seq<RefStorage<T>>, ghost granted: bool)
    requires Related(pool, vs, sts, st) && (op.Build? || op.SliceOf? || op.Concat?)
    modifies pool, pool.memory, pool.storages
    ensures fresh(pool.vectors - old(pool.vectors)) && pool.storages >= old(pool.storages)
    ensures forall t | t in pool.storages - old(pool.storages) :: fresh(t) && fresh(t.cells)
    ensures pool.memory.refusals == old(pool.memory.refusals) + if granted then 0 else 1
    ensures granted || Asks(st, op)
    ensures Related(pool, vs', sts', After(st, op, granted, pool.zero))
    ensures Others(pool, vs') == old(Others(pool, vs)) && fresh(Of(vs') - Of(vs))
  {
    vs', sts', granted := vs, sts, true;
    if op.Build? {
      vs', sts', granted := Build(pool, vs, sts, st, op.len, op.max);
    } else if op.src >= |vs| || (op.Concat? && op.src2 >= |vs|) {
      return;
    } else if op.SliceOf? {
      vs' := SliceOf(pool, vs, sts, st, op.src, op.offs, op.len);
    } else {
      vs', sts', granted := Concat(pool, vs, sts, st, op.src, op.src2);
    }
    OthersAfterJoin(vs, vs', old(pool.vectors), pool.vectors);
  }

  /** The operations on the vectors there are. */
  method Alter<T>(pool: Pool<T>, vs: seq<SliceVector<T>>, ghost sts: seq<RefStorage<T>>, ghost st: State<T>, op: Op<T>)
    returns (ghost sts': seq<RefStorage<T>>, ghost granted: bool)
    requires Related(pool, vs, sts, st)
    requires op.Assign? || op.Resize? || op.Reset? || op.Steal? || op.Write?
    modifies pool, pool.memory, Of(vs), pool.storages, Cells(pool)
    ensures pool.vectors == old(pool.vectors) && pool.storages >= old(pool.storages)
    ensures forall t | t in pool.storages - old(pool.storages) :: fresh(t) && fresh(t.cells)
    ensures pool.memory.refusals == old(pool.memory.refusals) + if granted then 0 else 1
    ensures granted || Asks(st, op)
    ensures Related(pool, vs, sts', After(st, op, granted, pool.zero))
  {
    sts', granted := sts, true;
    match op {
      case Assign(dst, src, offs, len) =>
        if dst < |vs| && src < |vs| {
          Assign(pool, vs, sts, st, dst, src, offs, len);
        }
      case Resize(dst, len) =>
        if dst < |vs| {
          Resize(pool, vs, sts, st, dst, len);
        }
      case Reset(dst, len, max) =>
        if dst < |vs| {
          sts', granted := Reset(pool, vs, sts, st, dst, len, max);
        }
      case Steal(dst, src) =>
        assert dst < |vs| ==> Is(vs[dst], st.slots[dst], sts);
        if dst < |vs| && src < |vs| && vs[dst].storage == null {
          Steal(pool, vs, sts, st, dst, src);
        }
      case Write(dst, i, x) =>
        assert dst < |vs| ==> Is(vs[dst], st.slots[dst], sts) && vs[dst] in pool.vectors;
        if dst < |vs| && i < vs[dst].length {
          Write(pool, vs, sts, st, dst, i, x);
        }
    }
  }

  /** One step of a client that owns the vectors vs. */
  method Step<T>(pool: Pool<T>, vs: seq<SliceVector<T>>, ghost sts: seq<RefStorage<T>>, ghost st: State<T>, op: Op<T>)
    returns (vs': seq<SliceVector<T>>, ghost sts': seq<RefStorage<T>>, ghost granted: bool)
    requires Related(pool, vs, sts, st)
    modifies pool, pool.memory, Of(vs), pool.storages, Cells(pool)
    ensures fresh(pool.vectors - old(pool.vectors)) && pool.storages >= old(pool.storages)
    ensures forall t | t in pool.storages - old(pool.storages) :: fresh(t) && fresh(t.cells)
    ensures pool.memory.refusals == old(pool.memory.refusals) + if granted then 0 else 1
    ensures granted || Asks(st, op)
    ensures Related(pool, vs', sts', After(st, op, granted, pool.zero))
    ensures Others(pool, vs') == old(Others(pool, vs)) && fresh(Of(vs') - Of(vs))
  {
    vs', sts', granted := vs, sts, true;
    if op.Build? || op.SliceOf? || op.Concat? {
      vs', sts', granted := Make(pool, vs, sts, st, op);
    } else if !op.Drop? {
      sts', granted := Alter(pool, vs, sts, st, op);
    } else if op.dst < |vs| {
      vs' := Drop(pool, vs, sts, st, op.dst);
      OthersAfterDrop(vs, op.dst, old(pool.vectors));
    }
  }

  ghost function Cells<T>(pool: Pool<T>): set<array<T>>
    reads pool
  {
    set t | t in pool.storages :: t.cells
  }

  /** Any run leaves vectors that show what the same run makes of plain windows, with the counters right all along
      and the other vectors of the pool untouched; and a run that drops all its vectors has deleted every storage,
      unless there are others. */
  method Run<T>(pool: Pool<T>, vs: seq<SliceVector<T>>, ghost sts: seq<RefStorage<T>>, ghost st: State<T>,
                ops: seq<Op<T>>)
    returns (vs': seq<SliceVector<T>>, ghost sts': seq<RefStorage<T>>, ghost granted: seq<bool>)
    requires Related(pool, vs, sts, st)
    modifies pool, pool.memory, Of(vs), pool.storages, Cells(pool)
    ensures fresh(pool.vectors - old(pool.vectors)) && pool.storages >= old(pool.storages)
    ensures forall t | t in pool.storages - old(pool.storages) :: fresh(t) && fresh(t.cells)
    ensures |granted| == |ops|
    ensures pool.memory.refusals == old(pool.memory.refusals) + Refused(granted)
    ensures RefusedWhenAsked(st, ops, granted, pool.zero)
    ensures Related(pool, vs', sts', AfterAll(st, ops, granted, pool.zero))
    ensures Others(pool, vs') == old(Others(pool, vs))
    ensures old(Others(pool, vs)) == {} && vs' == [] ==> pool.deleted == pool.storages
    decreases |ops|
  {
    if ops == [] {
      vs', sts', granted := vs, sts, [];
      if pool.vectors == {} {
        pool.NothingLeaks();
      }
      return;
    }
    ghost var first, rest;
    vs', sts', first := Step(pool, vs, sts, st, ops[0]);
    ghost var between := pool.storages;
    assert forall t | t in between - old(pool.storages) :: fresh(t) && fresh(t.cells);
    vs', sts', rest := Run(pool, vs', sts', After(st, ops[0], first, pool.zero), ops[1..]);
    granted := [first] + rest;
    assert granted[1..] == rest;
    OneAnswer(first, rest);
    forall t | t in pool.storages - old(pool.storages) ensures fresh(t) && fresh(t.cells) {
      assert t in between - old(pool.storages) || t in pool.storages - between;
    }
  }
}
