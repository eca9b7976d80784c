/** yateSort and yateSortVal (yateclass.h:1169-1216): bubble sort that shrinks the range to the place of the last
    exchange. */
module YateSort {

  type Compare<!T> = (T, T) -> int  // positive when the first object belongs after the second

  predicate Le<T>(cmp: Compare<T>, x: T, y: T) {
    cmp(x, y) <= 0
  }

  ghost predicate TotalPreorder<T(!new)>(cmp: Compare<T>) {
    && (forall x, y :: Le(cmp, x, y) || Le(cmp, y, x))
    && (forall x, y, z :: Le(cmp, x, y) && Le(cmp, y, z) ==> Le(cmp, x, z))
  }

  predicate Same<T>(cmp: Compare<T>, x: T, y: T) {
    Le(cmp, x, y) && Le(cmp, y, x)
  }

  /** The elements that compare equal to x, in order. */
  function Class<T>(cmp: Compare<T>, s: seq<T>, x: T): seq<T> {
    if s == [] then [] else (if Same(cmp, s[0], x) then [s[0]] else []) + Class(cmp, s[1..], x)
  }

  /** Elements that compare equal come in the same order in s and t. */
  ghost predicate Stable<T(!new)>(cmp: Compare<T>, s: seq<T>, t: seq<T>) {
    forall x :: Class(cmp, s, x) == Class(cmp, t, x)
  }

  /** Everything from position m on is where it belongs: no element before it is greater. */
  predicate Settled<T>(cmp: Compare<T>, s: seq<T>, m: nat) {
    forall p, q :: 0 <= p < q < |s| && m <= q ==> Le(cmp, s[p], s[q])
  }

  predicate Sorted<T>(cmp: Compare<T>, s: seq<T>) {
    forall p, q :: 0 <= p < q < |s| ==> Le(cmp, s[p], s[q])
  }

  function Swapped<T>(s: seq<T>, i: nat): (r: seq<T>)
    requires 1 <= i < |s|
    ensures |r| == |s|
  {
    s[i - 1 := s[i]][i := s[i - 1]]
  }

  // ---------- exchanging neighbours

  lemma ClassCons<T>(cmp: Compare<T>, y: T, t: seq<T>, x: T)
    ensures Class(cmp, [y] + t, x) == (if Same(cmp, y, x) then [y] else []) + Class(cmp, t, x)
  {
    assert ([y] + t)[1..] == t;
  }

  lemma {:induction false} ClassConcat<T>(cmp: Compare<T>, s: seq<T>, t: seq<T>, x: T)
    ensures Class(cmp, s + t, x) == Class(cmp, s, x) + Class(cmp, t, x)
    decreases |s|
  {
    if s == [] {
      assert s + t == t;
    } else {
      assert s + t == [s[0]] + (s[1..] + t);
      ClassCons(cmp, s[0], s[1..] + t, x);
      ClassCons(cmp, s[0], s[1..], x);
      assert s == [s[0]] + s[1..];
      ClassConcat(cmp, s[1..], t, x);
    }
  }

  /** Exchanging two neighbours that are out of order keeps the order inside every class. */
  lemma SwapIsStable<T(!new)>(cmp: Compare<T>, s: seq<T>, i: nat)
    requires TotalPreorder(cmp) && 1 <= i < |s| && !Le(cmp, s[i - 1], s[i])
    ensures Stable(cmp, Swapped(s, i), s)
  {
    var a, b, head, tail := s[i - 1], s[i], s[..i - 1], s[i + 1..];
    assert s == head + ([a] + [b]) + tail && Swapped(s, i) == head + ([b] + [a]) + tail;
    forall x ensures Class(cmp, Swapped(s, i), x) == Class(cmp, s, x) {
      assert !(Same(cmp, a, x) && Same(cmp, b, x));
      ClassAround(cmp, head, a, b, tail, x);
      ClassAround(cmp, head, b, a, tail, x);
    }
  }

  lemma ClassAround<T>(cmp: Compare<T>, head: seq<T>, a: T, b: T, tail: seq<T>, x: T)
    ensures Class(cmp, head + ([a] + [b]) + tail, x) ==
            Class(cmp, head, x) + (Class(cmp, [a], x) + Class(cmp, [b], x)) + Class(cmp, tail, x)
    ensures Class(cmp, [a], x) == if Same(cmp, a, x) then [a] else []
  {
    ClassConcat(cmp, [a], [b], x);
    ClassOfOne(cmp, a, x);
    ClassConcat(cmp, head, [a] + [b], x);
    ClassConcat(cmp, head + ([a] + [b]), tail, x);
  }

  /** The class of x in one element; with ClassConcat, in any sequence. */
  lemma ClassOfOne<T>(cmp: Compare<T>, a: T, x: T)
    ensures Class(cmp, [], x) == []
    ensures Class(cmp, [a], x) == if cmp(a, x) <= 0 && cmp(x, a) <= 0 then [a] else []
  {
    assert [a][1..] == [];
  }

  lemma SwapIsPermutation<T>(s: seq<T>, i: nat)
    requires 1 <= i < |s|
    ensures multiset(Swapped(s, i)) == multiset(s)
  {
  }

  // ---------- one pass

  /** State of a pass before comparing positions i - 1 and i: the greatest element so far is at i - 1, and
      everything in [last, i) is settled within the first i. */
  ghost predicate PassState<T>(cmp: Compare<T>, s: seq<T>, n: nat, i: nat, last: nat) {
    && 1 <= i <= n <= |s| && last < i
    && (forall p :: 0 <= p < i ==> Le(cmp, s[p], s[i - 1]))
    && Settled(cmp, s[..i], last)
    && Settled(cmp, s, n)
  }

  lemma PassKeeps<T(!new)>(cmp: Compare<T>, s: seq<T>, n: nat, i: nat, last: nat)
    requires TotalPreorder(cmp) && PassState(cmp, s, n, i, last) && i < n && Le(cmp, s[i - 1], s[i])
    ensures PassState(cmp, s, n, i + 1, last)
  {
    forall p | 0 <= p < i ensures Le(cmp, s[p], s[i]) {
      assert Le(cmp, s[p], s[i - 1]);
    }
    assert Le(cmp, s[i], s[i]);
    var u := s[..i + 1];
    forall p, q | 0 <= p < q < |u| && last <= q ensures Le(cmp, u[p], u[q]) {
      if q < i {
        assert Le(cmp, s[..i][p], s[..i][q]);
      }
    }
  }

  lemma PassSwaps<T(!new)>(cmp: Compare<T>, s: seq<T>, n: nat, i: nat, last: nat)
    requires TotalPreorder(cmp) && PassState(cmp, s, n, i, last) && i < n && !Le(cmp, s[i - 1], s[i])
    ensures PassState(cmp, Swapped(s, i), n, i + 1, i)
  {
    var r := Swapped(s, i);
    forall p | 0 <= p < i + 1 ensures Le(cmp, r[p], r[i]) {
      if p < i - 1 {
        assert Le(cmp, s[p], s[i - 1]);
      }
    }
    forall p, q | 0 <= p < q < |r| && n <= q ensures Le(cmp, r[p], r[q]) {
      var p' := if p == i then i - 1 else if p == i - 1 then i else p;
      assert Le(cmp, s[p'], s[q]);
    }
  }

  /** After a pass everything from the place of the last exchange on is settled. */
  lemma PassEnds<T(!new)>(cmp: Compare<T>, s: seq<T>, n: nat, last: nat)
    requires PassState(cmp, s, n, n, last)
    ensures Settled(cmp, s, last)
  {
    forall p, q | 0 <= p < q < |s| && last <= q ensures Le(cmp, s[p], s[q]) {
      if q < n {
        assert Le(cmp, s[..n][p], s[..n][q]);
      }
    }
  }

  // ---------- the sort

  /** One pass over the first n of len elements; returns the place of the last exchange, 0 if there was none. */
  method Pass<T(!new)>(a: array<T>, ghost len: nat, n: nat, cmp: Compare<T>) returns (last: nat)
    requires 1 < n <= len <= a.Length
    modifies a
    ensures last < n
    ensures multiset(a[..len]) == old(multiset(a[..len])) && a[len..] == old(a[len..])
    ensures TotalPreorder(cmp) && Settled(cmp, old(a[..len]), n) ==>
              Settled(cmp, a[..len], last) && Stable(cmp, a[..len], old(a[..len]))
  {
    ghost var good := TotalPreorder(cmp) && Settled(cmp, a[..len], n);
    last := 0;
    if good {
      assert Le(cmp, a[0], a[0]);
    }
    for i := 1 to n
      invariant last < i
      invariant multiset(a[..len]) == old(multiset(a[..len])) && a[len..] == old(a[len..])
      invariant good ==> PassState(cmp, a[..len], n, i, last) && Stable(cmp, a[..len], old(a[..len]))
    {
      ghost var s := a[..len];
      if cmp(a[i - 1], a[i]) <= 0 {
        if good {
          PassKeeps(cmp, s, n, i, last);
        }
        continue;
      }
      if good {
        PassSwaps(cmp, s, n, i, last);
        SwapIsStable(cmp, s, i);
      }
      SwapIsPermutation(s, i);
      Exchange(a, i, len);
      last := i;
    }
    if good {
      PassEnds(cmp, a[..len], n, last);
    }
  }

  /** The exchange of two neighbours. */
  method Exchange<T>(a: array<T>, i: nat, ghost len: nat)
    requires 1 <= i < len <= a.Length
    modifies a
    ensures a[..len] == Swapped(old(a[..len]), i) && a[len..] == old(a[len..])
  {
    var tmp := a[i - 1];
    a[i - 1] := a[i];
    a[i] := tmp;
  }

  /** Sorting the first len elements terminates with a permutation of them for any comparator; for a total preorder
      the result is sorted and elements that compare equal keep their order. The others are left alone. */
  method Sort<T(!new)>(a: array<T>, len: nat, cmp: Compare<T>)
    requires len <= a.Length
    modifies a
    ensures multiset(a[..len]) == old(multiset(a[..len])) && a[len..] == old(a[len..])
    ensures TotalPreorder(cmp) ==> Sorted(cmp, a[..len]) && Stable(cmp, a[..len], old(a[..len]))
    ensures (forall x, y :: cmp(x, y) <= 0 || cmp(y, x) <= 0)
            && (forall x, y, z :: cmp(x, y) <= 0 && cmp(y, z) <= 0 ==> cmp(x, z) <= 0) ==>
              forall p, q :: 0 <= p < q < len ==> cmp(a[p], a[q]) <= 0
  {
    var rest := len;
    while rest > 1
      invariant 0 <= rest <= len
      invariant multiset(a[..len]) == old(multiset(a[..len])) && a[len..] == old(a[len..])
      invariant TotalPreorder(cmp) ==> Settled(cmp, a[..len], rest) && Stable(cmp, a[..len], old(a[..len]))
      decreases rest
    {
      rest := Pass(a, len, rest, cmp);
    }
    if TotalPreorder(cmp) {
      assert forall p, q :: 0 <= p < q < len ==> Le(cmp, a[..len][p], a[..len][q]);
    }
  }

  /** The variant for plain numbers. */
  method SortVal(a: array<int>, len: nat, asc: bool)
    requires len <= a.Length
    modifies a
    ensures multiset(a[..len]) == old(multiset(a[..len])) && a[len..] == old(a[len..])
    ensures forall p, q :: 0 <= p < q < len ==> if asc then a[p] <= a[q] else a[p] >= a[q]
  {
    var cmp := (x: int, y: int) => if asc then x - y else y - x;
    Sort(a, len, cmp);
    assert forall p, q :: 0 <= p < q < len ==> Le(cmp, a[..len][p], a[..len][q]);
  }

  // ---------- the result is determined

  lemma {:induction false} ClassFirst<T(!new)>(cmp: Compare<T>, s: seq<T>, x: T)
    ensures Class(cmp, s, x) != [] <==> exists k :: 0 <= k < |s| && Same(cmp, s[k], x)
    decreases |s|
  {
    if s != [] {
      ClassFirst(cmp, s[1..], x);
      if Same(cmp, s[0], x) {
        assert Class(cmp, s, x)[0] == s[0];
      } else if Class(cmp, s[1..], x) != [] {
        var k :| 0 <= k < |s[1..]| && Same(cmp, s[1..][k], x);
        assert Same(cmp, s[k + 1], x);
      } else if k :| 0 <= k < |s| && Same(cmp, s[k], x) {
        assert Same(cmp, s[1..][k - 1], x);
      }
    }
  }

  /** The head of a sorted sequence compares equal to the head of any stable rearrangement that is sorted too. */
  lemma HeadsAreSame<T(!new)>(cmp: Compare<T>, s: seq<T>, t: seq<T>)
    requires TotalPreorder(cmp) && Sorted(cmp, t) && Stable(cmp, s, t) && s != []
    ensures t != [] && Le(cmp, t[0], s[0])
  {
    assert Le(cmp, s[0], s[0]);
    assert Same(cmp, s[0], s[0]);
    ClassFirst(cmp, s, s[0]);
    assert Class(cmp, t, s[0]) == Class(cmp, s, s[0]);
    ClassFirst(cmp, t, s[0]);
    var k :| 0 <= k < |t| && Same(cmp, t[k], s[0]);
    assert k > 0 ==> Le(cmp, t[0], t[k]);
  }

  /** Sorted and stable determine the result completely. */
  lemma {:induction false} StableSortIsUnique<T(!new)>(cmp: Compare<T>, s: seq<T>, t: seq<T>)
    requires TotalPreorder(cmp) && Sorted(cmp, s) && Sorted(cmp, t) && Stable(cmp, s, t)
    ensures s == t
    decreases |s|
  {
    if s == [] {
      if t != [] {
        HeadsAreSame(cmp, t, s);
        assert false;
      }
    } else {
      HeadsAreSame(cmp, s, t);
      HeadsAreSame(cmp, t, s);
      var h := s[0];
      assert Le(cmp, h, h);
      assert Class(cmp, s, h) == Class(cmp, t, h);
      assert Same(cmp, s[0], h) && Same(cmp, t[0], h);
      assert Class(cmp, s, h)[0] == s[0] && Class(cmp, t, h)[0] == t[0];
      forall x ensures Class(cmp, s[1..], x) == Class(cmp, t[1..], x) {
        assert Class(cmp, s, x) == Class(cmp, t, x);
        if Same(cmp, h, x) {
          assert Class(cmp, s, x)[1..] == Class(cmp, s[1..], x);
          assert Class(cmp, t, x)[1..] == Class(cmp, t[1..], x);
        } else {
          assert Class(cmp, s, x) == Class(cmp, s[1..], x);
          assert Class(cmp, t, x) == Class(cmp, t[1..], x);
        }
      }
      StableSortIsUnique(cmp, s[1..], t[1..]);
      assert s == [s[0]] + s[1..] && t == [t[0]] + t[1..];
    }
  }
}
