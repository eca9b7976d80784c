/** The table behind a HashList (engine/HashList.cpp, engine/ObjList.cpp) as a value: buckets of list nodes.
    A node may hold no object. A node carries the flag telling whether its object dies with the list. */
module HashTable {
  import opened Bytes

  type Name = string

  datatype Node<O> = Node(obj: Option<O>, autoDel: bool)

  /** An ObjList: at least one node, possibly holding nothing. */
  type ObjList<O> = seq<Node<O>>

  /** The bucket array; lists are created when first needed. */
  type Table<O> = seq<Option<ObjList<O>>>

  // ---------- String::hash (sdbm)

  const UINT_RANGE := 0x1_0000_0000

  function HashFrom(h: nat, s: Name): nat
    decreases |s|
  {
    if s == [] then h else HashFrom((h * 64 + h * 65536 - h + s[0] as int) % UINT_RANGE, s[1..])
  }

  function Hash(s: Name): nat {
    HashFrom(0, s)
  }

  /** Every character multiplies what the ones before it have given by 65599. */
  lemma HashIsPolynomial(s: Name, c: char)
    ensures Hash("") == 0 && Hash(s + [c]) == (65599 * Hash(s) + c as int) % 0x1_0000_0000
  {
    HashMore(0, s, c);
  }

  lemma {:induction false} HashMore(h: nat, s: Name, c: char)
    ensures HashFrom(h, s + [c]) == (65599 * HashFrom(h, s) + c as int) % UINT_RANGE
    decreases |s|
  {
    if s == [] {
      assert s + [c] == [c] && [c][1..] == [];
    } else {
      assert (s + [c])[0] == s[0] && (s + [c])[1..] == s[1..] + [c];
      HashMore((h * 64 + h * 65536 - h + s[0] as int) % UINT_RANGE, s[1..], c);
    }
  }

  function Slot(n: Name, size: nat): nat
    requires size > 0
  {
    Hash(n) % size
  }

  // ---------- one list

  /** Position of the first node with the object, the length if there is none. */
  function IndexOf<O(==)>(l: ObjList<O>, o: O): (k: nat)
    ensures k <= |l|
    ensures k < |l| ==> l[k].obj == Some(o)
    ensures forall j :: 0 <= j < k ==> l[j].obj != Some(o)
  {
    if l == [] then 0 else if l[0].obj == Some(o) then 0 else 1 + IndexOf(l[1..], o)
  }

  predicate Named<O>(nd: Node<O>, n: Name, name: O -> Name) {
    nd.obj.Some? && name(nd.obj.value) == n
  }

  /** Position of the first node whose object has the name. */
  function IndexOfName<O>(l: ObjList<O>, n: Name, name: O -> Name): (k: nat)
    ensures k <= |l|
    ensures k < |l| ==> Named(l[k], n, name)
    ensures forall j :: 0 <= j < k ==> !Named(l[j], n, name)
  {
    if l == [] then 0 else if Named(l[0], n, name) then 0 else 1 + IndexOfName(l[1..], n, name)
  }

  /** Removing a node: the next one moves up into it; the last one just becomes empty. */
  function Dropped<O>(l: ObjList<O>, k: nat): (r: ObjList<O>)
    requires k < |l|
    ensures r != []
  {
    if k + 1 < |l| then l[..k] + l[k + 1..] else l[..k] + [Node(None, l[k].autoDel)]
  }

  /** Appending reuses an empty last node. */
  function Added<O>(l: ObjList<O>, o: O, autoDel: bool): (r: ObjList<O>)
    requires l != []
    ensures r != []
  {
    (if l[|l| - 1].obj.None? then l[..|l| - 1] else l) + [Node(Some(o), autoDel)]
  }

  // ---------- what a list and a table hold

  ghost function NodeItems<O>(nd: Node<O>): multiset<(O, bool)> {
    if nd.obj.Some? then multiset{(nd.obj.value, nd.autoDel)} else multiset{}
  }

  ghost function ListItems<O>(l: ObjList<O>): multiset<(O, bool)> {
    if l == [] then multiset{} else NodeItems(l[0]) + ListItems(l[1..])
  }

  ghost function BucketItems<O>(b: Option<ObjList<O>>): multiset<(O, bool)> {
    if b.Some? then ListItems(b.value) else multiset{}
  }

  /** All the objects with their flags, with multiplicity. */
  ghost function Items<O>(t: Table<O>): multiset<(O, bool)> {
    if t == [] then multiset{} else BucketItems(t[0]) + Items(t[1..])
  }

  lemma {:induction false} ListItemsConcat<O>(a: ObjList<O>, b: ObjList<O>)
    ensures ListItems(a + b) == ListItems(a) + ListItems(b)
    decreases |a|
  {
    if a == [] {
      assert a + b == b;
    } else {
      assert (a + b)[1..] == a[1..] + b;
      ListItemsConcat(a[1..], b);
    }
  }

  lemma ListItemsOne<O>(nd: Node<O>)
    ensures ListItems([nd]) == NodeItems(nd)
  {
    assert [nd][1..] == [];
  }

  lemma ListItemsSplit<O>(l: ObjList<O>, k: nat)
    requires k < |l|
    ensures ListItems(l) == ListItems(l[..k]) + NodeItems(l[k]) + ListItems(l[k + 1..])
  {
    assert l == l[..k] + l[k..];
    ListItemsConcat(l[..k], l[k..]);
    assert l[k..][0] == l[k] && l[k..][1..] == l[k + 1..];
  }

  lemma DroppedItems<O>(l: ObjList<O>, k: nat)
    requires k < |l|
    ensures ListItems(l) == ListItems(Dropped(l, k)) + NodeItems(l[k])
  {
    ListItemsSplit(l, k);
    if k + 1 < |l| {
      ListItemsConcat(l[..k], l[k + 1..]);
    } else {
      ListItemsConcat(l[..k], [Node(None, l[k].autoDel)]);
      ListItemsOne<O>(Node(None, l[k].autoDel));
      assert l[k + 1..] == [];
    }
  }

  lemma AddedItems<O>(l: ObjList<O>, o: O, autoDel: bool)
    requires l != []
    ensures ListItems(Added(l, o, autoDel)) == ListItems(l) + multiset{(o, autoDel)}
  {
    var nd := Node(Some(o), autoDel);
    var last := |l| - 1;
    ListItemsOne(nd);
    if l[last].obj.None? {
      ListItemsSplit(l, last);
      assert l[last + 1..] == [];
      ListItemsConcat(l[..last], [nd]);
    } else {
      ListItemsConcat(l, [nd]);
    }
  }

  /** Exchanging one bucket exchanges its items. */
  lemma {:induction false} ItemsAfterUpdate<O>(t: Table<O>, i: nat, b: Option<ObjList<O>>)
    requires i < |t|
    ensures Items(t[i := b]) + BucketItems(t[i]) == Items(t) + BucketItems(b)
    decreases |t|
  {
    var t', head := t[i := b], BucketItems(t[0]);
    if i > 0 {
      assert t'[1..] == t[1..][i - 1 := b] && t'[0] == t[0];
      var tail, tail' := Items(t[1..]), Items(t'[1..]);
      ItemsAfterUpdate(t[1..], i - 1, b);
      assert tail' + BucketItems(t[i]) == tail + BucketItems(b);
      Regroup(head, tail', BucketItems(t[i]));
      Regroup(head, tail, BucketItems(b));
    } else {
      assert t'[1..] == t[1..];
      Swap(BucketItems(b), Items(t[1..]), head);
    }
  }

  lemma Regroup<A>(x: multiset<A>, y: multiset<A>, z: multiset<A>)
    ensures x + y + z == x + (y + z)
  {
  }

  lemma Swap<A>(x: multiset<A>, y: multiset<A>, z: multiset<A>)
    ensures x + y + z == z + y + x
  {
  }

  // ---------- placement

  ghost predicate Formed<O>(t: Table<O>) {
    forall i :: 0 <= i < |t| && t[i].Some? ==> t[i].value != []
  }

  /** Node k of a list, if it holds an object, holds one whose name belongs to bucket i. */
  predicate PlacedAt<O>(l: ObjList<O>, k: nat, i: nat, size: nat, name: O -> Name)
    requires k < |l| && size > 0
  {
    l[k].obj.Some? ==> Slot(name(l[k].obj.value), size) == i
  }

  /** So do the first n nodes. */
  predicate PlacedUpTo<O>(l: ObjList<O>, n: nat, i: nat, size: nat, name: O -> Name)
    requires n <= |l| && size > 0
  {
    forall k :: 0 <= k < n ==> PlacedAt(l, k, i, size, name)
  }

  predicate BucketPlaced<O>(b: Option<ObjList<O>>, i: nat, size: nat, name: O -> Name)
    requires size > 0
  {
    b.Some? ==> PlacedUpTo(b.value, |b.value|, i, size, name)
  }

  /** The objects of the first n buckets belong there. */
  ghost predicate PlacedBelow<O>(t: Table<O>, n: nat, name: O -> Name)
    requires n <= |t|
  {
    forall i :: 0 <= i < n ==> BucketPlaced(t[i], i, |t|, name)
  }

  /** Every object is in the bucket of its name. */
  ghost predicate Placed<O>(t: Table<O>, name: O -> Name)
  {
    PlacedBelow(t, |t|, name)
  }

  lemma AddedPlaced<O>(l: ObjList<O>, o: O, autoDel: bool, i: nat, size: nat, name: O -> Name)
    requires l != [] && size > 0
    requires Slot(name(o), size) == i && PlacedUpTo(l, |l|, i, size, name)
    ensures var r := Added(l, o, autoDel); PlacedUpTo(r, |r|, i, size, name)
  {
    var r := Added(l, o, autoDel);
    forall k | 0 <= k < |r| ensures PlacedAt(r, k, i, size, name) {
      if k < |r| - 1 {
        assert PlacedAt(l, k, i, size, name);
      }
    }
  }

  lemma DroppedPlaced<O>(l: ObjList<O>, k: nat, n: nat, i: nat, size: nat, name: O -> Name)
    requires k < |l| && size > 0 && n <= |l| && PlacedUpTo(l, n, i, size, name)
    ensures var r := Dropped(l, k);
            PlacedUpTo(r, if k < n && k + 1 < |l| then n - 1 else n, i, size, name)
  {
    var r := Dropped(l, k);
    var m := if k < n && k + 1 < |l| then n - 1 else n;
    assert m <= |r|;
    forall j | 0 <= j < m ensures PlacedAt(r, j, i, size, name) {
      if j < k {
        assert PlacedAt(l, j, i, size, name);
      } else if k + 1 < |l| {
        assert r[j] == l[j + 1];
        assert PlacedAt(l, j + 1, i, size, name);
      }
    }
  }

  // ---------- looking up

  datatype Place = Place(bucket: nat, node: nat)

  /** The reference: scan all the buckets in order, list by list, for an object with the name. */
  function Scan<O>(t: Table<O>, from: nat, n: Name, name: O -> Name): (p: Option<Place>)
    requires from <= |t|
    decreases |t| - from
  {
    if from == |t| then None
    else if t[from].Some? && IndexOfName(t[from].value, n, name) < |t[from].value| then
      Some(Place(from, IndexOfName(t[from].value, n, name)))
    else Scan(t, from + 1, n, name)
  }

  /** The lookup: only the bucket of the name. */
  function Lookup<O>(t: Table<O>, n: Name, name: O -> Name): Option<Place>
    requires |t| > 0
  {
    var i := Slot(n, |t|);
    if t[i].Some? && IndexOfName(t[i].value, n, name) < |t[i].value| then
      Some(Place(i, IndexOfName(t[i].value, n, name)))
    else None
  }

  /** In a well placed table the lookup finds what the scan of everything finds. */
  lemma LookupIsScan<O>(t: Table<O>, n: Name, name: O -> Name)
    requires |t| > 0 && Placed(t, name)
    ensures Lookup(t, n, name) == Scan(t, 0, n, name)
  {
    ScanOnlyOneBucket(t, 0, n, name);
  }

  lemma {:induction false} ScanOnlyOneBucket<O>(t: Table<O>, from: nat, n: Name, name: O -> Name)
    requires |t| > 0 && Placed(t, name) && from <= |t|
    ensures Scan(t, from, n, name) == if from <= Slot(n, |t|) then Lookup(t, n, name) else None
    decreases |t| - from
  {
    if from < |t| {
      ScanOnlyOneBucket(t, from + 1, n, name);
      if t[from].Some? {
        var k := IndexOfName(t[from].value, n, name);
        if k < |t[from].value| {
          assert BucketPlaced(t[from], from, |t|, name);
          assert PlacedAt(t[from].value, k, from, |t|, name);
        }
      }
    }
  }

  /** The scan succeeds exactly when some node holds an object with the name. */
  lemma {:induction false} ScanFinds<O>(t: Table<O>, from: nat, n: Name, name: O -> Name)
    requires from <= |t|
    ensures Scan(t, from, n, name).Some? <==>
            exists i, k :: from <= i < |t| && t[i].Some? && 0 <= k < |t[i].value| && Named(t[i].value[k], n, name)
    decreases |t| - from
  {
    if from < |t| {
      ScanFinds(t, from + 1, n, name);
      if t[from].Some? {
        var k := IndexOfName(t[from].value, n, name);
        if k < |t[from].value| {
          assert Named(t[from].value[k], n, name);
        }
      }
    }
  }

  // ---------- strays

  predicate Holds<O(==)>(b: Option<ObjList<O>>, o: O) {
    b.Some? && IndexOf(b.value, o) < |b.value|
  }

  /** How many nodes of a list hold the object. */
  ghost function Occurs<O>(l: ObjList<O>, o: O): nat {
    if l == [] then 0 else (if l[0].obj == Some(o) then 1 else 0) + Occurs(l[1..], o)
  }

  ghost function OccursIn<O>(b: Option<ObjList<O>>, o: O): nat {
    if b.Some? then Occurs(b.value, o) else 0
  }

  /** How many nodes hold the object in the buckets from `from` on, other than bucket i. */
  ghost function Strays<O>(t: Table<O>, from: nat, i: nat, o: O): nat
    requires from <= |t|
    decreases |t| - from
  {
    if from == |t| then 0 else (if from == i then 0 else OccursIn(t[from], o)) + Strays(t, from + 1, i, o)
  }

  lemma {:induction false} OccursConcat<O>(a: ObjList<O>, b: ObjList<O>, o: O)
    ensures Occurs(a + b, o) == Occurs(a, o) + Occurs(b, o)
    decreases |a|
  {
    if a == [] {
      assert a + b == b;
    } else {
      assert (a + b)[1..] == a[1..] + b;
      OccursConcat(a[1..], b, o);
    }
  }

  lemma OccursDropped<O>(l: ObjList<O>, k: nat, o: O)
    requires k < |l| && l[k].obj == Some(o)
    ensures Occurs(l, o) == Occurs(Dropped(l, k), o) + 1
  {
    assert l == l[..k] + l[k..];
    OccursConcat(l[..k], l[k..], o);
    assert l[k..][1..] == l[k + 1..];
    if k + 1 < |l| {
      OccursConcat(l[..k], l[k + 1..], o);
    } else {
      var empty: ObjList<O> := [Node(None, l[k].autoDel)];
      OccursConcat(l[..k], empty, o);
      assert empty[1..] == [] && Occurs(empty, o) == 0;
    }
  }

  lemma {:induction false} OccursIffHeld<O>(l: ObjList<O>, o: O)
    ensures Occurs(l, o) == 0 <==> IndexOf(l, o) == |l|
    decreases |l|
  {
    if l != [] {
      OccursIffHeld(l[1..], o);
    }
  }

  lemma {:induction false} NoStraysIff<O>(t: Table<O>, from: nat, i: nat, o: O)
    requires from <= |t|
    ensures Strays(t, from, i, o) == 0 <==> forall m :: from <= m < |t| && m != i ==> !Holds(t[m], o)
    decreases |t| - from
  {
    if from < |t| {
      NoStraysIff(t, from + 1, i, o);
      if t[from].Some? {
        OccursIffHeld(t[from].value, o);
      }
    }
  }

  lemma {:induction false} StraysAfterUpdate<O>(t: Table<O>, from: nat, i: nat, o: O, m: nat, b: Option<ObjList<O>>)
    requires from <= |t| && m < |t|
    ensures Strays(t[m := b], from, i, o) + (if from <= m && m != i then OccursIn(t[m], o) else 0)
         == Strays(t, from, i, o) + (if from <= m && m != i then OccursIn(b, o) else 0)
    decreases |t| - from
  {
    if from < |t| {
      StraysAfterUpdate(t, from + 1, i, o, m, b);
    }
  }

  /** Every object but o is in the bucket of its name. */
  ghost predicate PlacedExcept<O>(t: Table<O>, o: O, name: O -> Name)
  {
    forall i, k :: 0 <= i < |t| && t[i].Some? && 0 <= k < |t[i].value| && t[i].value[k].obj != Some(o) ==>
      PlacedAt(t[i].value, k, i, |t|, name)
  }

  /** Then the table is well placed exactly when o does not stray. */
  lemma PlacedIffNoStrays<O>(t: Table<O>, o: O, name: O -> Name)
    requires |t| > 0 && PlacedExcept(t, o, name)
    ensures Placed(t, name) <==> Strays(t, 0, Slot(name(o), |t|), o) == 0
  {
    var i := Slot(name(o), |t|);
    NoStraysIff(t, 0, i, o);
    if Placed(t, name) {
      forall m | 0 <= m < |t| && m != i ensures !Holds(t[m], o) {
        assert BucketPlaced(t[m], m, |t|, name);
        if Holds(t[m], o) {
          assert PlacedAt(t[m].value, IndexOf(t[m].value, o), m, |t|, name);
        }
      }
    }
    if forall m :: 0 <= m < |t| && m != i ==> !Holds(t[m], o) {
      forall m | 0 <= m < |t| ensures BucketPlaced(t[m], m, |t|, name) {
        if t[m].Some? {
          forall k | 0 <= k < |t[m].value| ensures PlacedAt(t[m].value, k, m, |t|, name) {
            if t[m].value[k].obj == Some(o) {
              assert IndexOf(t[m].value, o) <= k;
            }
          }
        }
      }
    }
  }
}
