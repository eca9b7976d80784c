/** HashList (engine/HashList.cpp, yateclass.h:5748-5910): objects spread over lists by the hash of their name.
    What toString() returns for each object is passed to every call as `name`: objects may be renamed between
    calls, not during one. */
module HashLists {
  import opened Bytes
  import opened HashTable

  /** A list just created: one empty node. */
  function NewList<O>(): ObjList<O> {
    [Node(None, true)]
  }

  /** Bucket i after an object was appended to it, creating its list when there is none. */
  function AddAt<O>(t: Table<O>, i: nat, o: O, autoDel: bool): Table<O>
    requires i < |t| && (t[i].Some? ==> t[i].value != [])
  {
    t[i := Some(Added(if t[i].Some? then t[i].value else NewList<O>(), o, autoDel))]
  }

  function DropAt<O>(t: Table<O>, i: nat, k: nat): Table<O>
    requires i < |t| && t[i].Some? && k < |t[i].value|
  {
    t[i := Some(Dropped(t[i].value, k))]
  }

  lemma AddAtItems<O>(t: Table<O>, i: nat, o: O, autoDel: bool)
    requires i < |t| && (t[i].Some? ==> t[i].value != [])
    ensures Items(AddAt(t, i, o, autoDel)) == Items(t) + multiset{(o, autoDel)}
  {
    var l := if t[i].Some? then t[i].value else NewList<O>();
    AddedItems(l, o, autoDel);
    ItemsAfterUpdate(t, i, Some(Added(l, o, autoDel)));
    ListItemsOne<O>(Node(None, true));
    assert BucketItems(t[i]) == ListItems(l);
    Cancel(Items(AddAt(t, i, o, autoDel)), ListItems(l), Items(t), multiset{(o, autoDel)});
  }

  lemma DropAtItems<O>(t: Table<O>, i: nat, k: nat)
    requires i < |t| && t[i].Some? && k < |t[i].value|
    ensures Items(t) == Items(DropAt(t, i, k)) + NodeItems(t[i].value[k])
  {
    var l := t[i].value;
    DroppedItems(l, k);
    ItemsAfterUpdate(t, i, Some(Dropped(l, k)));
    Cancel(Items(t), ListItems(Dropped(l, k)), Items(DropAt(t, i, k)), NodeItems(l[k]));
  }

  lemma Cancel<A>(x: multiset<A>, y: multiset<A>, z: multiset<A>, w: multiset<A>)
    requires x + y == z + (y + w)
    ensures x == z + w
  {
    forall a ensures x[a] == (z + w)[a] {
      assert (x + y)[a] == (z + (y + w))[a];
    }
  }

  lemma AddAtPlaced<O>(t: Table<O>, i: nat, o: O, autoDel: bool, name: O -> Name)
    requires i < |t| && (t[i].Some? ==> t[i].value != [])
    requires BucketPlaced(t[i], i, |t|, name) && Slot(name(o), |t|) == i
    ensures BucketPlaced(AddAt(t, i, o, autoDel)[i], i, |t|, name)
  {
    var l := if t[i].Some? then t[i].value else NewList<O>();
    assert PlacedUpTo(l, |l|, i, |t|, name);
    AddedPlaced(l, o, autoDel, i, |t|, name);
  }

  lemma AddedKeepsPlaced<O>(t: Table<O>, i: nat, o: O, autoDel: bool, name: O -> Name)
    requires i < |t| && (t[i].Some? ==> t[i].value != []) && Slot(name(o), |t|) == i
    ensures Placed(t, name) ==> Placed(AddAt(t, i, o, autoDel), name)
  {
    if Placed(t, name) {
      AddAtPlaced(t, i, o, autoDel, name);
    }
  }

  lemma DropAtPlaced<O>(t: Table<O>, i: nat, k: nat, name: O -> Name)
    requires i < |t| && t[i].Some? && k < |t[i].value|
    requires BucketPlaced(t[i], i, |t|, name)
    ensures BucketPlaced(DropAt(t, i, k)[i], i, |t|, name)
  {
    DroppedPlaced(t[i].value, k, |t[i].value|, i, |t|, name);
  }

  lemma DroppedKeepsPlaced<O>(t: Table<O>, i: nat, k: nat, name: O -> Name)
    requires i < |t| && t[i].Some? && k < |t[i].value|
    ensures Placed(t, name) ==> Placed(DropAt(t, i, k), name)
  {
    if Placed(t, name) {
      DropAtPlaced(t, i, k, name);
    }
  }

  /** The first object out of place is where a search for it ends. */
  lemma FirstOutOfPlace<O>(l: ObjList<O>, k: nat, n: nat, size: nat, name: O -> Name)
    requires size > 0 && k < |l| && l[k].obj.Some? && Slot(name(l[k].obj.value), size) != n
    requires PlacedUpTo(l, k, n, size, name)
    ensures IndexOf(l, l[k].obj.value) == k
  {
    forall j | 0 <= j < k ensures l[j].obj != l[k].obj {
      assert PlacedAt(l, j, n, size, name);
    }
  }

  /** One node is gone from its list, the others are there in their order; a list keeps an empty last node. */
  ghost predicate Gone<O>(t: Table<O>, t': Table<O>, p: Place) {
    && p.bucket < |t| && t[p.bucket].Some? && p.node < |t[p.bucket].value|
    && var l, k := t[p.bucket].value, p.node;
       t' == t[p.bucket := Some(l[..k] + if k + 1 < |l| then l[k + 1..] else [Node(None, l[k].autoDel)])]
  }

  /** After o was appended, a name finds the object that it found before, or o if it is the name of o and found
      nothing. */
  ghost predicate FoundAfter<O>(t: Table<O>, t': Table<O>, n: Name, o: O, name: O -> Name)
    requires 0 < |t| == |t'|
  {
    var p, q := Lookup(t, n, name), Lookup(t', n, name);
    if p.Some? then q == p && t'[q.value.bucket].value[q.value.node] == t[p.value.bucket].value[p.value.node]
    else if n == name(o) then q.Some? && t'[q.value.bucket].value[q.value.node].obj == Some(o)
    else q.None?
  }

  lemma Appended<O>(t: Table<O>, i: nat, o: O, autoDel: bool, name: O -> Name)
    requires 0 < |t| && Formed(t) && i == Slot(name(o), |t|)
    ensures var t', l := AddAt(t, i, o, autoDel), if t[i].Some? then t[i].value else [Node(None, true)];
            && t' == t[i := Some((if l[|l| - 1].obj.None? then l[..|l| - 1] else l) + [Node(Some(o), autoDel)])]
            && Items(t') == Items(t) + multiset{(o, autoDel)}
            && (Placed(t, name) ==> Placed(t', name))
            && forall n :: FoundAfter(t, t', n, o, name)
  {
    AddAtItems(t, i, o, autoDel);
    AddedKeepsPlaced(t, i, o, autoDel, name);
    forall n ensures FoundAfter(t, AddAt(t, i, o, autoDel), n, o, name) {
      OldestIsFound(t, i, o, autoDel, n, name);
    }
  }

  /** Where an object was appended to the end of the list of its name, a name that found an object before still finds
      the same one, and its own name finds it if it found nothing before. */
  lemma OldestNamesake<O>(t: Table<O>, t': Table<O>, o: O, autoDel: bool, n: Name, name: O -> Name)
    requires 0 < |t| == |t'| && Formed(t)
    requires var i := Slot(name(o), |t|);
             var l := if t[i].Some? then t[i].value else [Node(None, true)];
             t' == t[i := Some((if l[|l| - 1].obj.None? then l[..|l| - 1] else l) + [Node(Some(o), autoDel)])]
    ensures var p, q := Lookup(t, n, name), Lookup(t', n, name);
            && (p.Some? ==> q == p && t'[q.value.bucket].value[q.value.node] == t[p.value.bucket].value[p.value.node])
            && (p.None? && n == name(o) ==> q.Some? && t'[q.value.bucket].value[q.value.node].obj == Some(o))
            && (p.None? && n != name(o) ==> q.None?)
  {
    OldestIsFound(t, Slot(name(o), |t|), o, autoDel, n, name);
  }

  lemma OldestIsFound<O>(t: Table<O>, i: nat, o: O, autoDel: bool, n: Name, name: O -> Name)
    requires i < |t| && (t[i].Some? ==> t[i].value != []) && i == Slot(name(o), |t|)
    ensures FoundAfter(t, AddAt(t, i, o, autoDel), n, o, name)
  {
    if Slot(n, |t|) == i {
      var l := if t[i].Some? then t[i].value else NewList<O>();
      var r := Added(l, o, autoDel);
      FirstNamed(l, r, n, name);
    }
  }

  /** The first object of a name is the same in two lists that differ behind it. */
  lemma FirstNamed<O>(l: ObjList<O>, r: ObjList<O>, n: Name, name: O -> Name)
    requires l != [] && r != [] && |r| - 1 <= |l| && (|r| == |l| ==> l[|l| - 1].obj.None?)
    requires |l| <= |r| && forall k :: 0 <= k < |r| - 1 ==> r[k] == l[k]
    ensures var k, j := IndexOfName(l, n, name), IndexOfName(r, n, name);
            if k < |l| then j == k < |r| && r[j] == l[k]
            else j == if Named(r[|r| - 1], n, name) then |r| - 1 else |r|
  {
    var k, j := IndexOfName(l, n, name), IndexOfName(r, n, name);
    if k < |l| {
      assert Named(l[k], n, name) && r[k] == l[k];
    }
    if j < |r| {
      assert Named(r[j], n, name);
      assert j < |r| - 1 ==> Named(l[j], n, name);
    }
  }

  /** A table after one move. */
  function Moved<O>(t: Table<O>, n: nat, k: nat, i: nat): Table<O>
    requires n < |t| && i < |t| && i != n && t[n].Some? && k < |t[n].value| && t[n].value[k].obj.Some?
    requires t[i].Some? ==> t[i].value != []
  {
    AddAt(DropAt(t, n, k), i, t[n].value[k].obj.value, t[n].value[k].autoDel)
  }

  lemma MoveKeepsItems<O>(t: Table<O>, n: nat, k: nat, i: nat)
    requires n < |t| && i < |t| && i != n && t[n].Some? && k < |t[n].value| && t[n].value[k].obj.Some?
    requires t[i].Some? ==> t[i].value != []
    ensures Items(Moved(t, n, k, i)) == Items(t)
  {
    DropAtItems(t, n, k);
    AddAtItems(DropAt(t, n, k), i, t[n].value[k].obj.value, t[n].value[k].autoDel);
  }

  lemma MoveKeeps<O>(t: Table<O>, n: nat, k: nat, i: nat, name: O -> Name)
    requires n < |t| && i < |t| && i != n && t[n].Some? && k < |t[n].value| && t[n].value[k].obj.Some?
    requires t[i].Some? ==> t[i].value != []
    requires Slot(name(t[n].value[k].obj.value), |t|) == i && PlacedUpTo(t[n].value, k, n, |t|, name)
    ensures Items(Moved(t, n, k, i)) == Items(t)
    ensures PlacedUpTo(Dropped(t[n].value, k), k, n, |t|, name)
    ensures PlacedBelow(t, n, name) ==> PlacedBelow(Moved(t, n, k, i), n, name)
  {
    MoveKeepsItems(t, n, k, i);
    DroppedPlaced(t[n].value, k, k, n, |t|, name);
    if BucketPlaced(t[i], i, |t|, name) {
      AddAtPlaced(DropAt(t, n, k), i, t[n].value[k].obj.value, t[n].value[k].autoDel, name);
    }
  }

  lemma MoveCounts<O>(t: Table<O>, n: nat, k: nat, i: nat, o: O)
    requires n < |t| && i < |t| && i != n && t[n].Some? && k < |t[n].value| && t[n].value[k].obj == Some(o)
    requires t[i].Some? ==> t[i].value != []
    ensures Items(Moved(t, n, k, i)) == Items(t)
    ensures Strays(Moved(t, n, k, i), 0, i, o) + 1 == Strays(t, 0, i, o)
  {
    var d, autoDel := DropAt(t, n, k), t[n].value[k].autoDel;
    DropAtItems(t, n, k);
    AddAtItems(d, i, o, autoDel);
    OccursDropped(t[n].value, k, o);
    StraysAfterUpdate(t, 0, i, o, n, d[n]);
    StraysAfterUpdate(d, 0, i, o, i, AddAt(d, i, o, autoDel)[i]);
  }

  /** Moving a node with o leaves every other node where it was, or next to it, in the same bucket. */
  lemma MoveKeepsOthers<O>(t: Table<O>, n: nat, k: nat, i: nat, o: O, name: O -> Name)
    requires n < |t| && i < |t| && i != n && t[n].Some? && k < |t[n].value| && t[n].value[k].obj == Some(o)
    requires t[i].Some? ==> t[i].value != []
    requires PlacedExcept(t, o, name)
    ensures PlacedExcept(Moved(t, n, k, i), o, name)
  {
    var r := Moved(t, n, k, i);
    forall m, j | 0 <= m < |r| && r[m].Some? && 0 <= j < |r[m].value| && r[m].value[j].obj != Some(o)
      ensures PlacedAt(r[m].value, j, m, |r|, name)
    {
      if m == n {
        var l := t[n].value;
        var j' := if j < k || k + 1 == |l| then j else j + 1;
        assert r[n].value == Dropped(l, k);
        assert j' != k ==> r[n].value[j] == l[j'] && PlacedAt(l, j', n, |t|, name);
      } else if m == i {
        assert t[i].Some? && j < |t[i].value| ==> PlacedAt(t[i].value, j, i, |t|, name);
      } else {
        assert PlacedAt(t[m].value, j, m, |t|, name);
      }
    }
  }

  /** List n of t is being resynced, t having been `was` before. */
  ghost predicate Resynced<O>(t: Table<O>, was: Table<O>, n: nat, moved: bool, name: O -> Name)
    requires n < |t| == |was|
  {
    && Items(t) == Items(was) && PlacedBelow(t, n, name)
    && if moved then !BucketPlaced(was[n], n, |was|, name) else t == was
  }

  lemma BucketDone<O>(t: Table<O>, n: nat, name: O -> Name)
    requires n < |t| && PlacedBelow(t, n, name) && BucketPlaced(t[n], n, |t|, name)
    ensures PlacedBelow(t, n + 1, name)
  {
  }

  class HashList<O(==)> {
    const size: nat
    const lists: array<Option<ObjList<O>>>

    ghost predicate Valid()
      reads this, lists
    {
      size > 0 && lists.Length == size && Formed(lists[..])
    }

    constructor (n: nat)
      ensures Valid() && fresh(lists)
      ensures size == if n < 1 then 1 else if n > 1024 then 1024 else n
      ensures forall i :: 0 <= i < size ==> lists[i] == None
    {
      size := if n < 1 then 1 else if n > 1024 then 1024 else n;
      lists := new Option<ObjList<O>>[if n < 1 then 1 else if n > 1024 then 1024 else n](_ => None);
    }

    /** The number of objects. */
    method Count() returns (c: nat)
      requires Valid()
      ensures c == |Items(lists[..])|
    {
      c := 0;
      assert lists[0..] == lists[..];
      for i := 0 to size
        invariant |Items(lists[..])| == c + |Items(lists[i..])|
      {
        assert lists[i..][1..] == lists[i + 1..];
        if lists[i].Some? {
          var n := ListCount(lists[i].value);
          c := c + n;
        }
      }
    }

    /** ObjList::count. */
    static method ListCount(l: ObjList<O>) returns (c: nat)
      ensures c == |ListItems(l)|
    {
      c := 0;
      assert l[0..] == l;
      for k := 0 to |l|
        invariant |ListItems(l)| == c + |ListItems(l[k..])|
      {
        assert l[k..][1..] == l[k + 1..];
        if l[k].obj.Some? {
          c := c + 1;
        }
      }
    }

    /** The first node, in scan order, that holds the object. */
    method FindObject(obj: Option<O>) returns (p: Option<Place>)
      requires Valid()
      ensures p.Some? ==> obj.Some? && p.value.bucket < size && lists[p.value.bucket].Some?
                          && var l := lists[p.value.bucket].value;
                             p.value.node == IndexOf(l, obj.value) < |l|
      ensures p.None? && obj.Some? ==> forall i :: 0 <= i < size ==> !Holds(lists[i], obj.value)
      ensures p.Some? ==> forall i :: 0 <= i < p.value.bucket ==> !Holds(lists[i], obj.value)
    {
      if obj.None? {
        return None;
      }
      for i := 0 to size
        invariant forall j :: 0 <= j < i ==> !Holds(lists[j], obj.value)
      {
        if lists[i].Some? {
          var k := IndexOf(lists[i].value, obj.value);
          if k < |lists[i].value| {
            return Some(Place(i, k));
          }
        }
      }
      p := None;
    }

    method FindObjectByHash(obj: Option<O>, hash: nat) returns (p: Option<Place>)
      requires Valid()
      ensures p == if obj.Some? && Holds(lists[hash % size], obj.value)
                   then Some(Place(hash % size, IndexOf(lists[hash % size].value, obj.value))) else None
    {
      if obj.None? {
        return None;
      }
      var i := hash % size;
      if lists[i].Some? {
        var k := IndexOf(lists[i].value, obj.value);
        return if k < |lists[i].value| then Some(Place(i, k)) else None;
      }
      p := None;
    }

    method FindByName(n: Name, name: O -> Name) returns (p: Option<Place>)
      requires Valid()
      ensures p == Lookup(lists[..], n, name)
      ensures Placed(lists[..], name) ==> p == Scan(lists[..], 0, n, name)
    {
      var i := Hash(n) % size;
      p := None;
      if lists[i].Some? {
        var k := IndexOfName(lists[i].value, n, name);
        if k < |lists[i].value| {
          p := Some(Place(i, k));
        }
      }
      if Placed(lists[..], name) {
        LookupIsScan(lists[..], n, name);
      }
    }

    /** Append to a bucket, creating its list if needed. */
    method PushTo(i: nat, o: O, autoDel: bool)
      requires Valid() && i < size
      modifies lists
      ensures Valid() && lists[..] == AddAt(old(lists[..]), i, o, autoDel)
    {
      if lists[i].None? {
        lists[i] := Some(NewList<O>());
      }
      lists[i] := Some(Added(lists[i].value, o, autoDel));
    }

    method Append(obj: Option<O>, name: O -> Name) returns (added: bool)
      requires Valid()
      modifies lists
      ensures Valid() && added == obj.Some?
      ensures lists[..] == if obj.None? then old(lists[..])
                           else AddAt(old(lists[..]), Slot(name(obj.value), size), obj.value, true)
      ensures obj.Some? ==> Items(lists[..]) == old(Items(lists[..])) + multiset{(obj.value, true)}
      ensures old(Placed(lists[..], name)) ==> Placed(lists[..], name)
      ensures obj.Some? ==>
                var i := Slot(name(obj.value), size);
                var l := if old(lists[..])[i].Some? then old(lists[..])[i].value else [Node(None, true)];
                lists[..] ==
                old(lists[..])[i := Some((if l[|l| - 1].obj.None? then l[..|l| - 1] else l) + [Node(obj, true)])]
      ensures obj.Some? ==> forall n :: FoundAfter(old(lists[..]), lists[..], n, obj.value, name)
    {
      if obj.None? {
        return false;
      }
      var i := Hash(name(obj.value)) % size;
      ghost var t := lists[..];
      Appended(t, i, obj.value, true, name);
      PushTo(i, obj.value, true);
      assert lists[..] == AddAt(t, i, obj.value, true);
      added := true;
    }

    /** ObjList::remove on the node found, if any. */
    method RemoveAt(p: Option<Place>, ghost name: O -> Name) returns (removed: Option<O>)
      requires Valid()
      requires p.Some? ==> p.value.bucket < size && lists[p.value.bucket].Some?
                           && p.value.node < |lists[p.value.bucket].value|
      modifies lists
      ensures Valid()
      ensures p.None? ==> removed == None && lists[..] == old(lists[..])
      ensures p.Some? ==>
                && lists[..] == DropAt(old(lists[..]), p.value.bucket, p.value.node)
                && Gone(old(lists[..]), lists[..], p.value)
                && removed == old(lists[p.value.bucket].value[p.value.node].obj)
                && old(Items(lists[..])) == Items(lists[..]) + NodeItems(old(lists[p.value.bucket].value[p.value.node]))
      ensures old(Placed(lists[..], name)) ==> Placed(lists[..], name)
    {
      if p.None? {
        return None;
      }
      var i, k := p.value.bucket, p.value.node;
      ghost var t := lists[..];
      DropAtItems(t, i, k);
      DroppedKeepsPlaced(t, i, k, name);
      removed := lists[i].value[k].obj;
      lists[i] := Some(Dropped(lists[i].value, k));
      assert lists[..] == DropAt(t, i, k);
    }

    /** Remove an object, looking for it in the bucket of its name or everywhere. */
    method Remove(obj: Option<O>, name: O -> Name, useHash: bool) returns (removed: Option<O>, ghost at: Option<Place>)
      requires Valid()
      modifies lists
      ensures Valid()
      ensures removed.Some? ==> removed == obj
      ensures at.Some? <==> removed.Some?
      ensures at.Some? ==>
                && at.value.bucket < size && old(lists[..])[at.value.bucket].Some?
                && (var l, k := old(lists[..])[at.value.bucket].value, at.value.node;
                    k < |l| && l[k].obj == removed
                    && lists[..] == old(lists[..])[at.value.bucket :=
                         Some(l[..k] + if k + 1 < |l| then l[k + 1..] else [Node(None, l[k].autoDel)])])
                && forall j :: 0 <= j < at.value.node ==> old(lists[..])[at.value.bucket].value[j].obj != removed
      ensures removed.None? ==> lists[..] == old(lists[..])
      ensures removed.Some? ==> exists d ::
                old(Items(lists[..])) == Items(lists[..]) + multiset{(removed.value, d)}
      ensures old(Placed(lists[..], name)) ==> Placed(lists[..], name)
      ensures obj.Some? && (!useHash || old(Placed(lists[..], name))) ==>
                (removed.Some? <==> exists i :: 0 <= i < size && old(Holds(lists[i], obj.value)))
      ensures obj.Some? && useHash ==>
                (removed.Some? <==> old(Holds(lists[Slot(name(obj.value), size)], obj.value)))
    {
      var p;
      if useHash && obj.Some? {
        p := FindObjectByHash(obj, Hash(name(obj.value)));
        if Placed(lists[..], name) {
          HeldWherePlaced(lists[..], obj.value, name);
        }
      } else {
        p := FindObject(obj);
      }
      at := p;
      removed := RemoveAt(p, name);
    }

    /** Remove the object found by name. */
    method RemoveByName(n: Name, name: O -> Name) returns (removed: Option<O>)
      requires Valid()
      modifies lists
      ensures Valid()
      ensures var p := old(Lookup(lists[..], n, name));
              p.Some? ==>
                var l, k := old(lists[..])[p.value.bucket].value, p.value.node;
                removed == l[k].obj
                && lists[..] == old(lists[..])[p.value.bucket :=
                     Some(l[..k] + if k + 1 < |l| then l[k + 1..] else [Node(None, l[k].autoDel)])]
      ensures removed.Some? <==> old(Lookup(lists[..], n, name).Some?)
      ensures removed.Some? ==> name(removed.value) == n
      ensures removed.None? ==> lists[..] == old(lists[..])
      ensures removed.Some? ==> exists d ::
                old(Items(lists[..])) == Items(lists[..]) + multiset{(removed.value, d)}
      ensures old(Placed(lists[..], name)) ==>
                && Placed(lists[..], name)
                && (removed.Some? <==> Scan(old(lists[..]), 0, n, name).Some?)
    {
      var p := FindByName(n, name);
      removed := RemoveAt(p, name);
    }

    /** Put every object back in the bucket of its name, while walking the very lists that are changed. */
    method Resync(name: O -> Name) returns (moved: bool)
      requires Valid()
      modifies lists
      ensures Valid() && Placed(lists[..], name)
      ensures Items(lists[..]) == old(Items(lists[..]))
      ensures moved <==> !old(Placed(lists[..], name))
      ensures !moved ==> lists[..] == old(lists[..])
    {
      moved := false;
      for n := 0 to size
        invariant Valid() && Items(lists[..]) == old(Items(lists[..]))
        invariant PlacedBelow(lists[..], n, name)
        invariant if moved then !old(Placed(lists[..], name)) else lists[..] == old(lists[..])
      {
        var m := ResyncBucket(n, name);
        moved := moved || m;
      }
    }

    /** The inner loop of resync: walk list n, moving away what does not belong there. */
    method ResyncBucket(n: nat, name: O -> Name) returns (moved: bool)
      requires Valid() && n < size
      requires PlacedBelow(lists[..], n, name)
      modifies lists
      ensures Valid() && Items(lists[..]) == old(Items(lists[..]))
      ensures PlacedBelow(lists[..], n + 1, name)
      ensures if moved then !old(BucketPlaced(lists[n], n, size, name)) else lists[..] == old(lists[..])
    {
      moved := false;
      ghost var was := lists[..];
      if lists[n].Some? {
        var k := 0;
        while k < |lists[n].value|
          invariant Valid() && Resynced(lists[..], was, n, moved, name)
          invariant lists[n].Some? && 0 <= k <= |lists[n].value| && PlacedUpTo(lists[n].value, k, n, size, name)
          decreases 2 * (|lists[n].value| - k)
                    - (if k < |lists[n].value| && lists[n].value[k].obj.None? then 1 else 0)
        {
          var m := ResyncAt(n, k, name);
          if m {
            moved := true;
            continue;
          }
          k := k + 1;
        }
      }
      BucketDone(lists[..], n, name);
    }

    /** The part of the loop that moves the object at the cursor, if there is one that belongs elsewhere. */
    method ResyncAt(n: nat, k: nat, name: O -> Name) returns (moved: bool)
      requires Valid() && n < size && lists[n].Some? && k < |lists[n].value|
      requires PlacedUpTo(lists[n].value, k, n, size, name)
      modifies lists
      ensures Valid() && Items(lists[..]) == old(Items(lists[..]))
      ensures moved <==> !old(PlacedAt(lists[n].value, k, n, size, name))
      ensures moved ==> old(lists[n].value[k].obj.Some?) && lists[n] == Some(Dropped(old(lists[n].value), k))
                        && PlacedUpTo(lists[n].value, k, n, size, name)
                        && (old(PlacedBelow(lists[..], n, name)) ==> PlacedBelow(lists[..], n, name))
      ensures !moved ==> lists[..] == old(lists[..])
    {
      var nd := lists[n].value[k];
      if nd.obj.Some? {
        var i := Hash(name(nd.obj.value)) % size;
        if i != n {
          MoveNode(n, k, i, name);
          return true;
        }
      }
      moved := false;
    }

    /** One move of resync: the object is removed from its list, which finds it by searching from the start, and
        is appended to the list of its bucket with its flag. */
    method MoveNode(n: nat, k: nat, i: nat, name: O -> Name)
      requires Valid() && n < size && i < size && i != n && lists[n].Some? && k < |lists[n].value|
      requires lists[n].value[k].obj.Some? && Slot(name(lists[n].value[k].obj.value), size) == i
      requires PlacedUpTo(lists[n].value, k, n, size, name)
      modifies lists
      ensures Valid() && Items(lists[..]) == old(Items(lists[..]))
      ensures lists[n] == Some(Dropped(old(lists[n].value), k))
      ensures PlacedUpTo(lists[n].value, k, n, size, name)
      ensures old(PlacedBelow(lists[..], n, name)) ==> PlacedBelow(lists[..], n, name)
    {
      var o, autoDel := lists[n].value[k].obj.value, lists[n].value[k].autoDel;
      var at := IndexOf(lists[n].value, o);
      FirstOutOfPlace(lists[n].value, k, n, size, name);
      ghost var t := lists[..];
      MoveKeeps(t, n, k, i, name);
      lists[n] := Some(Dropped(lists[n].value, at));
      assert lists[..] == DropAt(t, n, k);
      PushTo(i, o, autoDel);
    }

    /** Move one object whose name may have changed to the bucket it belongs to. Where all the other objects are
        well placed, that repairs the table if and only if the object does not stray more than once (or at all,
        when its bucket holds it already). */
    method ResyncOne(obj: Option<O>, name: O -> Name) returns (moved: bool)
      requires Valid()
      modifies lists
      ensures Valid() && Items(lists[..]) == old(Items(lists[..]))
      ensures !moved ==> lists[..] == old(lists[..])
      ensures obj.Some? ==>
                var i := Slot(name(obj.value), size);
                && (moved <==> !old(Holds(lists[i], obj.value))
                               && exists m :: 0 <= m < size && m != i && old(Holds(lists[m], obj.value)))
                && (old(PlacedExcept(lists[..], obj.value, name)) ==>
                      (Placed(lists[..], name) <==>
                       old(Strays(lists[..], 0, i, obj.value)) <= if old(Holds(lists[i], obj.value)) then 0 else 1))
    {
      if obj.None? {
        return false;
      }
      var o := obj.value;
      var i := Hash(name(o)) % size;
      ghost var t := lists[..];
      NoStraysIff(t, 0, i, o);
      if PlacedExcept(t, o, name) {
        PlacedIffNoStrays(t, o, name);
      }
      if lists[i].Some? && IndexOf(lists[i].value, o) < |lists[i].value| {
        return false;
      }
      for n := 0 to size
        invariant lists[..] == t
        invariant forall m :: 0 <= m < n && m != i ==> !Holds(t[m], o)
      {
        if n == i || lists[n].None? {
          continue;
        }
        var k := IndexOf(lists[n].value, o);
        if k == |lists[n].value| {
          continue;
        }
        assert Holds(t[n], o);
        MoveStray(n, k, i, o, name);
        return true;
      }
      moved := false;
    }

    /** The move made by resync for one object. */
    method MoveStray(n: nat, k: nat, i: nat, o: O, ghost name: O -> Name)
      requires Valid() && n < size && i < size && i != n && lists[n].Some? && k < |lists[n].value|
      requires lists[n].value[k].obj == Some(o) && Slot(name(o), size) == i
      modifies lists
      ensures Valid() && Items(lists[..]) == old(Items(lists[..]))
      ensures old(PlacedExcept(lists[..], o, name)) ==>
                (Placed(lists[..], name) <==> old(Strays(lists[..], 0, i, o)) == 1)
    {
      ghost var t := lists[..];
      MoveCounts(t, n, k, i, o);
      var autoDel := lists[n].value[k].autoDel;
      lists[n] := Some(Dropped(lists[n].value, k));
      assert lists[..] == DropAt(t, n, k);
      PushTo(i, o, autoDel);
      if PlacedExcept(t, o, name) {
        MoveKeepsOthers(t, n, k, i, o, name);
        PlacedIffNoStrays(lists[..], o, name);
      }
    }
  }

  /** In a well placed table an object is held in the bucket of its name or nowhere. */
  lemma HeldWherePlaced<O>(t: Table<O>, o: O, name: O -> Name)
    requires |t| > 0 && Placed(t, name)
    ensures forall i :: 0 <= i < |t| && Holds(t[i], o) ==> i == Slot(name(o), |t|)
  {
    forall i | 0 <= i < |t| && Holds(t[i], o) ensures i == Slot(name(o), |t|) {
      assert BucketPlaced(t[i], i, |t|, name);
      assert PlacedAt(t[i].value, IndexOf(t[i].value, o), i, |t|, name);
    }
  }
}
