/** Whole runs on a HashList (engine/HashList.cpp:68-183) against the same run on a plain multiset of objects, each
    with the flag telling whether it dies with the list. */
module HashRuns {
  import opened Bytes
  import opened HashTable
  import opened HashLists

  datatype Op<!O> =
    | Append(obj: O)
    | Remove(obj: O, useHash: bool)
    | RemoveByName(n: Name)
    | Rename(name: O -> Name)  // objects change their names; the list is resynchronised afterwards

  // ---------- the run on a plain multiset

  ghost predicate Has<O>(items: multiset<(O, bool)>, o: O) {
    (o, true) in items || (o, false) in items
  }

  ghost predicate HasNamed<O>(items: multiset<(O, bool)>, n: Name, name: O -> Name) {
    exists x :: x in items && name(x.0) == n
  }

  /** The object taken out by an operation, with its flag: one that was asked for, and none only if there is none. */
  ghost predicate Answers<O>(items: multiset<(O, bool)>, name: O -> Name, op: Op<O>, gone: Option<(O, bool)>) {
    && (gone.Some? ==> gone.value in items)
    && match op
       case Remove(o, _) => (gone.Some? <==> Has(items, o)) && (gone.Some? ==> gone.value.0 == o)
       case RemoveByName(n) => (gone.Some? <==> HasNamed(items, n, name)) && (gone.Some? ==> name(gone.value.0) == n)
       case _ => gone.None?
  }

  ghost function Arrival<O>(op: Op<O>): multiset<(O, bool)> {
    if op.Append? then multiset{(op.obj, true)} else multiset{}
  }

  ghost function Departure<O>(gone: Option<(O, bool)>): multiset<(O, bool)> {
    if gone.Some? then multiset{gone.value} else multiset{}
  }

  function ObjectOf<O>(gone: Option<(O, bool)>): Option<O> {
    if gone.Some? then Some(gone.value.0) else None
  }

  ghost function After<O>(items: multiset<(O, bool)>, op: Op<O>, gone: Option<(O, bool)>): multiset<(O, bool)> {
    items + Arrival(op) - Departure(gone)
  }

  /** The names after one operation and after all. */
  function NextName<O>(name: O -> Name, op: Op<O>): O -> Name {
    if op.Rename? then op.name else name
  }

  function LastName<O>(name: O -> Name, ops: seq<Op<O>>): O -> Name
    decreases |ops|
  {
    if ops == [] then name else LastName(NextName(name, ops[0]), ops[1..])
  }

  ghost function AfterAll<O>(items: multiset<(O, bool)>, ops: seq<Op<O>>, gone: seq<Option<(O, bool)>>)
    : multiset<(O, bool)>
    requires |ops| == |gone|
    decreases |ops|
  {
    if ops == [] then items else AfterAll(After(items, ops[0], gone[0]), ops[1..], gone[1..])
  }

  /** Every operation takes out what it should. */
  ghost predicate AllAnswer<O>(items: multiset<(O, bool)>, name: O -> Name, ops: seq<Op<O>>,
                               gone: seq<Option<(O, bool)>>)
    requires |ops| == |gone|
    decreases |ops|
  {
    ops != [] ==>
      && Answers(items, name, ops[0], gone[0])
      && AllAnswer(After(items, ops[0], gone[0]), NextName(name, ops[0]), ops[1..], gone[1..])
  }

  ghost function AppendedBy<O>(ops: seq<Op<O>>): multiset<(O, bool)>
    decreases |ops|
  {
    if ops == [] then multiset{} else Arrival(ops[0]) + AppendedBy(ops[1..])
  }

  ghost function GoneBy<O>(gone: seq<Option<(O, bool)>>): multiset<(O, bool)>
    decreases |gone|
  {
    if gone == [] then multiset{} else Departure(gone[0]) + GoneBy(gone[1..])
  }

  /** Every object that was there or has been appended is either still there or among those removed, with its flag. */
  lemma {:induction false} Conserved<O>(items: multiset<(O, bool)>, name: O -> Name, ops: seq<Op<O>>,
                                        gone: seq<Option<(O, bool)>>)
    requires |ops| == |gone| && AllAnswer(items, name, ops, gone)
    ensures items + AppendedBy(ops) == AfterAll(items, ops, gone) + GoneBy(gone)
    decreases |ops|
  {
    if ops != [] {
      var next := After(items, ops[0], gone[0]);
      Conserved(next, NextName(name, ops[0]), ops[1..], gone[1..]);
      Balance(items, Arrival(ops[0]), Departure(gone[0]), AppendedBy(ops[1..]), AfterAll(next, ops[1..], gone[1..]),
              GoneBy(gone[1..]));
    }
  }

  lemma Balance<A>(items: multiset<A>, come: multiset<A>, gone: multiset<A>, later: multiset<A>, left: multiset<A>,
                   goneLater: multiset<A>)
    requires gone <= items && items + come - gone + later == left + goneLater
    ensures items + (come + later) == left + (gone + goneLater)
  {
    forall a ensures (items + (come + later))[a] == (left + (gone + goneLater))[a] {
      assert (items + come - gone + later)[a] == (left + goneLater)[a] && gone[a] <= items[a];
    }
  }

  // ---------- tables and multisets

  lemma {:induction false} ListItemsAt<O>(l: ObjList<O>, o: O, d: bool)
    ensures (o, d) in ListItems(l) <==> exists k :: 0 <= k < |l| && l[k] == Node(Some(o), d)
    decreases |l|
  {
    if l != [] {
      ListItemsAt(l[1..], o, d);
      if (o, d) in ListItems(l[1..]) {
        var k :| 0 <= k < |l| - 1 && l[1..][k] == Node(Some(o), d);
        assert l[k + 1] == Node(Some(o), d);
      }
      if k :| 0 < k < |l| && l[k] == Node(Some(o), d) {
        assert l[1..][k - 1] == l[k];
      }
    }
  }

  lemma {:induction false} ItemsIn<O>(t: Table<O>, x: (O, bool))
    ensures x in Items(t) <==> exists i :: 0 <= i < |t| && x in BucketItems(t[i])
    decreases |t|
  {
    if t != [] {
      ItemsIn(t[1..], x);
      if x in Items(t[1..]) {
        var i :| 0 <= i < |t| - 1 && x in BucketItems(t[1..][i]);
        assert x in BucketItems(t[i + 1]);
      }
      if i :| 0 < i < |t| && x in BucketItems(t[i]) {
        assert t[1..][i - 1] == t[i];
      }
    }
  }

  lemma HoldsIff<O>(b: Option<ObjList<O>>, o: O)
    ensures Holds(b, o) <==> (o, true) in BucketItems(b) || (o, false) in BucketItems(b)
  {
    if b.Some? {
      ListItemsAt(b.value, o, true);
      ListItemsAt(b.value, o, false);
      if Holds(b, o) {
        var k := IndexOf(b.value, o);
        assert b.value[k] == Node(Some(o), b.value[k].autoDel);
      }
    }
  }

  /** Some bucket holds an object exactly when the multiset has it. */
  lemma HeldIff<O>(t: Table<O>, o: O)
    ensures (exists i :: 0 <= i < |t| && Holds(t[i], o)) <==> Has(Items(t), o)
  {
    ItemsIn(t, (o, true));
    ItemsIn(t, (o, false));
    forall i | 0 <= i < |t|
      ensures Holds(t[i], o) <==> (o, true) in BucketItems(t[i]) || (o, false) in BucketItems(t[i])
    {
      HoldsIff(t[i], o);
    }
  }

  lemma NodeIsItem<O>(t: Table<O>, i: nat, k: nat)
    requires i < |t| && t[i].Some? && k < |t[i].value| && t[i].value[k].obj.Some?
    ensures (t[i].value[k].obj.value, t[i].value[k].autoDel) in Items(t)
  {
    var nd := t[i].value[k];
    ListItemsAt(t[i].value, nd.obj.value, nd.autoDel);
    ItemsIn(t, (nd.obj.value, nd.autoDel));
  }

  /** The scan finds a name exactly when the multiset has an object with it. */
  lemma ScanIff<O>(t: Table<O>, n: Name, name: O -> Name)
    ensures Scan(t, 0, n, name).Some? <==> HasNamed(Items(t), n, name)
  {
    ScanFinds(t, 0, n, name);
    if Scan(t, 0, n, name).Some? {
      var i, k :| 0 <= i < |t| && t[i].Some? && 0 <= k < |t[i].value| && Named(t[i].value[k], n, name);
      NodeIsItem(t, i, k);
      assert name((t[i].value[k].obj.value, t[i].value[k].autoDel).0) == n;
    }
    if HasNamed(Items(t), n, name) {
      var x :| x in Items(t) && name(x.0) == n;
      ItemsIn(t, x);
      var i :| 0 <= i < |t| && x in BucketItems(t[i]);
      ListItemsAt(t[i].value, x.0, x.1);
      var k :| 0 <= k < |t[i].value| && t[i].value[k] == Node(Some(x.0), x.1);
      assert Named(t[i].value[k], n, name);
    }
  }

  // ---------- runs

  method Remove<O(==)>(h: HashList<O>, name: O -> Name, obj: O, useHash: bool)
    returns (removed: Option<O>, ghost gone: Option<(O, bool)>)
    requires h.Valid() && Placed(h.lists[..], name)
    modifies h.lists
    ensures h.Valid() && Placed(h.lists[..], name) && removed == ObjectOf(gone)
    ensures gone.Some? <==> Has(old(Items(h.lists[..])), obj)
    ensures gone.Some? ==> gone.value in old(Items(h.lists[..])) && gone.value.0 == obj
    ensures Items(h.lists[..]) == old(Items(h.lists[..])) - Departure(gone)
  {
    ghost var t := h.lists[..];
    HeldIff(t, obj);
    ghost var at;
    removed, at := h.Remove(Some(obj), name, useHash);
    assert removed.Some? <==> exists i :: 0 <= i < |t| && Holds(t[i], obj);
    gone := Taken(t, h.lists[..], removed);
  }

  method RemoveByName<O(==)>(h: HashList<O>, name: O -> Name, n: Name)
    returns (removed: Option<O>, ghost gone: Option<(O, bool)>)
    requires h.Valid() && Placed(h.lists[..], name)
    modifies h.lists
    ensures h.Valid() && Placed(h.lists[..], name) && removed == ObjectOf(gone)
    ensures gone.Some? <==> HasNamed(old(Items(h.lists[..])), n, name)
    ensures gone.Some? ==> gone.value in old(Items(h.lists[..])) && name(gone.value.0) == n
    ensures Items(h.lists[..]) == old(Items(h.lists[..])) - Departure(gone)
  {
    ghost var t := h.lists[..];
    ScanIff(t, n, name);
    removed := h.RemoveByName(n, name);
    gone := Taken(t, h.lists[..], removed);
  }

  /** One operation, with the object it took out. */
  method Step<O(==)>(h: HashList<O>, name: O -> Name, op: Op<O>)
    returns (name': O -> Name, removed: Option<O>, ghost gone: Option<(O, bool)>)
    requires h.Valid() && Placed(h.lists[..], name)
    modifies h.lists
    ensures h.Valid() && Placed(h.lists[..], name')
    ensures name' == NextName(name, op)
    ensures removed == ObjectOf(gone)
    ensures Answers(old(Items(h.lists[..])), name, op, gone)
    ensures Items(h.lists[..]) == After(old(Items(h.lists[..])), op, gone)
  {
    ghost var items := Items(h.lists[..]);
    name', removed, gone := name, None, None;
    match op {
      case Append(obj) =>
        var _ := h.Append(Some(obj), name);
      case Remove(obj, useHash) =>
        removed, gone := Remove(h, name, obj, useHash);
      case RemoveByName(n) =>
        removed, gone := RemoveByName(h, name, n);
      case Rename(renamed) =>
        name' := renamed;
        var _ := h.Resync(name');
    }
    StepAnswers(items, Items(h.lists[..]), name, op, gone);
  }

  lemma StepAnswers<O>(items: multiset<(O, bool)>, items': multiset<(O, bool)>, name: O -> Name, op: Op<O>,
                       gone: Option<(O, bool)>)
    requires gone.Some? ==> gone.value in items
    requires op.Append? || op.Rename? ==> gone == None && items' == items + Arrival(op)
    requires op.Remove? || op.RemoveByName? ==> items' == items - Departure(gone)
    requires op.Remove? ==> (gone.Some? <==> Has(items, op.obj)) && (gone.Some? ==> gone.value.0 == op.obj)
    requires op.RemoveByName? ==>
               (gone.Some? <==> HasNamed(items, op.n, name)) && (gone.Some? ==> name(gone.value.0) == op.n)
    ensures Answers(items, name, op, gone) && items' == After(items, op, gone)
  {
  }

  /** The object removed, with its flag. */
  lemma Taken<O>(t: Table<O>, t': Table<O>, removed: Option<O>) returns (gone: Option<(O, bool)>)
    requires removed.None? ==> t' == t
    requires removed.Some? ==> exists d :: Items(t) == Items(t') + multiset{(removed.value, d)}
    ensures removed == ObjectOf(gone)
    ensures gone.Some? ==> gone.value in Items(t)
    ensures Items(t') == Items(t) - Departure(gone)
  {
    gone := None;
    if removed.Some? {
      var d :| Items(t) == Items(t') + multiset{(removed.value, d)};
      gone := Some((removed.value, d));
    }
  }

  /** Any run leaves what the same run makes of a plain multiset, every removal takes out an object asked for if and
      only if there is one, and the lookup by name, which goes by the last renaming, finds what a scan of everything
      finds: an object if and only if there is one of that name. */
  method Run<O(==)>(h: HashList<O>, name: O -> Name, ops: seq<Op<O>>)
    returns (name': O -> Name, removed: seq<Option<O>>, ghost gone: seq<Option<(O, bool)>>)
    requires h.Valid() && Placed(h.lists[..], name)
    modifies h.lists
    ensures h.Valid() && Placed(h.lists[..], name')
    ensures name' == LastName(name, ops)
    ensures |gone| == |ops| && removed == Objects(gone)
    ensures AllAnswer(old(Items(h.lists[..])), name, ops, gone)
    ensures Items(h.lists[..]) == AfterAll(old(Items(h.lists[..])), ops, gone)
    ensures LooksUpAll(h.lists[..], name')
  {
    name', removed, gone := RunOn(h, name, ops);
    LookupIsRight(h.lists[..], name');
  }

  method RunOn<O(==)>(h: HashList<O>, name: O -> Name, ops: seq<Op<O>>)
    returns (name': O -> Name, removed: seq<Option<O>>, ghost gone: seq<Option<(O, bool)>>)
    requires h.Valid() && Placed(h.lists[..], name)
    modifies h.lists
    ensures h.Valid() && Placed(h.lists[..], name')
    ensures name' == LastName(name, ops)
    ensures |gone| == |ops| && removed == Objects(gone)
    ensures AllAnswer(old(Items(h.lists[..])), name, ops, gone)
    ensures Items(h.lists[..]) == AfterAll(old(Items(h.lists[..])), ops, gone)
    decreases |ops|
  {
    if ops == [] {
      return name, [], [];
    }
    ghost var items := Items(h.lists[..]);
    var first: Option<O>;
    var rest: seq<Option<O>>;
    ghost var x, later;
    name', first, x := Step(h, name, ops[0]);
    name', rest, later := RunOn(h, name', ops[1..]);
    removed, gone := [first] + rest, [x] + later;
    FirstOfRun(items, name, ops, x, later);
  }

  ghost function Objects<O>(gone: seq<Option<(O, bool)>>): seq<Option<O>>
    decreases |gone|
  {
    if gone == [] then [] else [ObjectOf(gone[0])] + Objects(gone[1..])
  }

  lemma FirstOfRun<O>(items: multiset<(O, bool)>, name: O -> Name, ops: seq<Op<O>>, x: Option<(O, bool)>,
                      later: seq<Option<(O, bool)>>)
    requires |ops| == 1 + |later| && Answers(items, name, ops[0], x)
    requires AllAnswer(After(items, ops[0], x), NextName(name, ops[0]), ops[1..], later)
    ensures LastName(name, ops) == LastName(NextName(name, ops[0]), ops[1..])
    ensures Objects([x] + later) == [ObjectOf(x)] + Objects(later)
    ensures AllAnswer(items, name, ops, [x] + later)
    ensures AfterAll(items, ops, [x] + later) == AfterAll(After(items, ops[0], x), ops[1..], later)
  {
    assert ([x] + later)[1..] == later;
  }

  /** For every name the lookup finds what a scan of everything finds, and an object if and only if there is one. */
  ghost predicate LooksUpAll<O>(t: Table<O>, name: O -> Name)
    requires |t| > 0
  {
    forall n :: Lookup(t, n, name) == Scan(t, 0, n, name) && (Lookup(t, n, name).Some? <==> HasNamed(Items(t), n, name))
  }

  lemma LookupIsRight<O>(t: Table<O>, name: O -> Name)
    requires |t| > 0 && Placed(t, name)
    ensures LooksUpAll(t, name)
  {
    forall n
      ensures Lookup(t, n, name) == Scan(t, 0, n, name)
      ensures Lookup(t, n, name).Some? <==> HasNamed(Items(t), n, name)
    {
      LookupIsScan(t, n, name);
      ScanIff(t, n, name);
    }
  }
}
