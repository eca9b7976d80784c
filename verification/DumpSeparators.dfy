/** Which separators keep the texts of different vectors apart (yateclass.h:7931-7973). */
module DumpSeparators {
  import opened Bytes
  import opened Decimals
  import opened RunText
  import opened DumpReader

  // ---------- which separators keep vectors apart

  predicate Typed(v: seq<int>, low: int, high: int) {
    forall k :: 0 <= k < |v| ==> low <= v[k] <= high
  }

  predicate Same(v: seq<int>, w: seq<int>, sep: Option<string>) {
    DumpText(v, sep, true, true) == DumpText(w, sep, true, true)
  }

  /** No two ascending vectors with values from low to high are shortened to the same text. */
  ghost predicate Apart(sep: Option<string>, low: int, high: int) {
    forall v, w ::
      Ascending(v) && Ascending(w) && Typed(v, low, high) && Typed(w, low, high) && Same(v, w, sep) ==> v == w
  }

  lemma UnclearWithoutDigits(sep: string, signed: bool)
    requires forall k :: 0 <= k < |sep| ==> !IsDigit(sep[k])
    ensures Clear(sep, signed) <==> !(sep in {"", "-"} || (signed && sep in {"--", ",-"}))
  {
    if |sep| == 1 {
      assert sep == [sep[0]] && sep[1..] == "";
    } else if |sep| > 1 {
      var rest := sep[1..];
      assert rest[0] == sep[1];
      if |sep| == 2 {
        assert sep == [sep[0], sep[1]] && |rest| == 1;
      } else {
        assert rest[1] == sep[2];
      }
    }
  }

  /** Of the separators without digits, and for any of the element types, unsigned or signed and of at least 8 bits,
      exactly those keep vectors apart that can be told from the numbers: all but none at all, "", "-" and, for
      signed types, "--" and ",-". */
  lemma ApartIff(sep: Option<string>, low: int, high: int)
    requires (low == 0 || low <= -128) && high >= 127
    requires sep.Some? ==> forall k :: 0 <= k < |sep.value| ==> !IsDigit(sep.value[k])
    ensures Apart(sep, low, high) <==> sep.Some? && Clear(sep.value, low < 0)
    ensures !Apart(sep, low, high) <==>
              sep in {None, Some(""), Some("-")} || (low < 0 && sep in {Some("--"), Some(",-")})
  {
    if sep.Some? && Clear(sep.value, low < 0) {
      ClearKeepsApart(sep.value, low, high);
    } else {
      if sep.Some? {
        UnclearWithoutDigits(sep.value, low < 0);
      }
      Collisions(sep, low, high);
    }
  }

  /** A separator that can be told from the numbers keeps vectors apart, with digits in it or not. */
  lemma ClearKeepsApart(sep: string, low: int, high: int)
    requires Clear(sep, low < 0)
    ensures Apart(Some(sep), low, high)
  {
    forall v, w | Typed(v, low, high) && Typed(w, low, high) && Same(v, w, Some(sep))
      ensures v == w
    {
      ReadsBack(v, sep, true, true, low < 0);
      ReadsBack(w, sep, true, true, low < 0);
    }
  }

  // ---------- what is shown of vectors of a few runs

  function ItemsOf(v: seq<int>, sep: Option<string>): seq<Item> {
    Shown(Runs(v), sep, true)
  }

  predicate Follows(v: seq<int>, r: seq<int>) {
    IsRun(r) && (v != [] ==> r[0] != v[|v| - 1] + 1)
  }

  lemma OneMoreRun(v: seq<int>, r: seq<int>, sep: Option<string>)
    requires Follows(v, r)
    ensures ItemsOf(v + r, sep) == ItemsOf(v, sep) + ShownRun(r, if v == [] then None else sep)
  {
    RunsMore(v, r);
    RunsAreMaximal(v);
    assert (Runs(v) + [r])[..|Runs(v)|] == Runs(v);
  }

  lemma OneRun(a: seq<int>, sep: Option<string>)
    requires IsRun(a)
    ensures ItemsOf(a, sep) == ShownRun(a, None)
  {
    OneMoreRun([], a, sep);
    assert [] + a == a && ItemsOf([], sep) == [] && [] + ShownRun(a, None) == ShownRun(a, None);
  }

  lemma TwoRuns(a: seq<int>, b: seq<int>, sep: Option<string>)
    requires IsRun(a) && Follows(a, b)
    ensures ItemsOf(a + b, sep) == ShownRun(a, None) + ShownRun(b, sep)
  {
    OneRun(a, sep);
    OneMoreRun(a, b, sep);
  }

  lemma ThreeRuns(a: seq<int>, b: seq<int>, c: seq<int>, sep: Option<string>)
    requires IsRun(a) && Follows(a, b) && Follows(a + b, c)
    ensures ItemsOf(a + b + c, sep) == ShownRun(a, None) + ShownRun(b, sep) + ShownRun(c, sep)
  {
    TwoRuns(a, b, sep);
    OneMoreRun(a + b, c, sep);
  }

  lemma {:induction false} SameTexts(a: seq<Item>, b: seq<Item>)
    requires |a| == |b| && forall k :: 0 <= k < |a| ==> ItemText(a[k]) == ItemText(b[k])
    ensures Text(a) == Text(b)
    decreases |a|
  {
    if a != [] {
      SameTexts(a[1..], b[1..]);
    }
  }

  // ---------- the separators that do not keep vectors apart

  lemma NotApart(v: seq<int>, w: seq<int>, sep: Option<string>, low: int, high: int)
    requires v != w && |v| > 2 && |w| > 2 && Alike(v, w, sep)
    requires Ascending(v) && Ascending(w) && Typed(v, low, high) && Typed(w, low, high)
    ensures !Apart(sep, low, high)
  {
    assert Same(v, w, sep);
  }

  /** The written pieces of three values apart, and of a run of two or three that ends where the second of them does. */
  lemma PiecesAlike(x: int, y: int, z: int, r: seq<int>, sep: Option<string>)
    requires IsRun(r) && 2 <= |r| <= 3 && r[0] == x
    requires ItemText(Item(sep, y)) == ItemText(Item(Some(if |r| == 2 then "," else "-"), r[|r| - 1]))
    ensures Text(ShownRun([x], None) + ShownRun([y], sep) + ShownRun([z], sep))
            == Text(ShownRun(r, None) + ShownRun([z], sep))
  {
    SameTexts(ShownRun([x], None) + ShownRun([y], sep) + ShownRun([z], sep), ShownRun(r, None) + ShownRun([z], sep));
  }

  lemma RunsAlike(x: int, y: int, z: int, r: seq<int>, sep: Option<string>)
    requires x + 1 < y && y + 1 < z && IsRun(r) && 2 <= |r| <= 3 && r[0] == x && r[|r| - 1] <= y
    requires ItemText(Item(sep, y)) == ItemText(Item(Some(if |r| == 2 then "," else "-"), r[|r| - 1]))
    ensures Alike([x] + [y] + [z], r + [z], sep)
  {
    var those := ShownRun([x], None) + ShownRun([y], sep) + ShownRun([z], sep);
    var others := ShownRun(r, None) + ShownRun([z], sep);
    assert ItemsOf([x] + [y] + [z], sep) == those by {
      ThreeRuns([x], [y], [z], sep);
    }
    assert ItemsOf(r + [z], sep) == others by {
      TwoRuns(r, [z], sep);
    }
    PiecesAlike(x, y, z, r, sep);
  }

  predicate Alike(v: seq<int>, w: seq<int>, sep: Option<string>) {
    Text(ItemsOf(v, sep)) == Text(ItemsOf(w, sep))
  }

  lemma RunsCollide(x: int, y: int, z: int, r: seq<int>, sep: Option<string>, low: int, high: int)
    requires low <= x && x + 1 < y && y + 1 < z <= high
    requires IsRun(r) && 2 <= |r| <= 3 && r[0] == x && r[|r| - 1] <= y
    requires ItemText(Item(sep, y)) == ItemText(Item(Some(if |r| == 2 then "," else "-"), r[|r| - 1]))
    ensures !Apart(sep, low, high)
  {
    assert r[|r| - 1] == r[0] + (|r| - 1);
    RunsAlike(x, y, z, r, sep);
    RunAndOne(r, z, y, low, high);
    ValuesApart(x, y, z, r, low, high);
    NotApart([x] + [y] + [z], r + [z], sep, low, high);
  }

  lemma ValuesApart(x: int, y: int, z: int, r: seq<int>, low: int, high: int)
    requires low <= x && x + 1 < y && y + 1 < z <= high && IsRun(r) && 2 <= |r| && r[0] == x
    ensures var v := [x] + [y] + [z]; Ascending(v) && Typed(v, low, high) && v != r + [z]
  {
    var v := [x] + [y] + [z];
    assert v[1] == y && (r + [z])[1] == r[1] == x + 1;
  }

  lemma RunAndOne(r: seq<int>, z: int, y: int, low: int, high: int)
    requires IsRun(r) && low <= r[0] && r[|r| - 1] <= y < z <= high
    ensures Ascending(r + [z]) && Typed(r + [z], low, high)
  {
    assert r[|r| - 1] == r[0] + (|r| - 1);
  }

  lemma NumbersAlike(v: seq<int>, c: int, d: int, cd: int, sep: Option<string>)
    requires Lead(sep) == "" && Spell(cd) == Spell(c) + Spell(d)
    requires v != [] && Follows(v, [c]) && Follows(v + [c], [d]) && Follows(v, [cd])
    ensures Alike(v + [c] + [d], v + [cd], sep)
  {
    OneMoreRun(v, [cd], sep);
    TwoMoreRuns(v, [c], [d], sep);
    DigitsJoin(ItemsOf(v, sep), c, d, cd, sep);
  }

  lemma TwoMoreRuns(v: seq<int>, a: seq<int>, b: seq<int>, sep: Option<string>)
    requires v != [] && Follows(v, a) && Follows(v + a, b)
    ensures ItemsOf(v + a + b, sep) == ItemsOf(v, sep) + ShownRun(a, sep) + ShownRun(b, sep)
  {
    OneMoreRun(v, a, sep);
    OneMoreRun(v + a, b, sep);
  }

  lemma NumbersApart(x: int, y: int, c: int, d: int, cd: int, low: int, high: int)
    requires low <= x && x + 1 < y && y + 1 < c && c + 1 < d < cd <= high
    ensures var v, w := [x, y] + [c] + [d], [x, y] + [cd];
            Ascending(v) && Ascending(w) && Typed(v, low, high) && Typed(w, low, high) && v != w
  {
    assert |[x, y] + [c] + [d]| == 4 && |[x, y] + [cd]| == 3;
  }

  /** Two numbers written without a separator, and the one that their digits spell. */
  lemma NumbersCollide(x: int, y: int, c: int, d: int, cd: int, sep: Option<string>, low: int, high: int)
    requires Lead(sep) == "" && Spell(cd) == Spell(c) + Spell(d)
    requires low <= x && x + 1 < y && y + 1 < c && c + 1 < d < cd <= high
    ensures !Apart(sep, low, high)
  {
    var v := [x, y];
    NumbersAlike(v, c, d, cd, sep);
    NumbersApart(x, y, c, d, cd, low, high);
    NotApart(v + [c] + [d], v + [cd], sep, low, high);
  }

  lemma DigitsJoin(items: seq<Item>, c: int, d: int, cd: int, sep: Option<string>)
    requires Lead(sep) == "" && Spell(cd) == Spell(c) + Spell(d)
    ensures Text(items + ShownRun([c], sep) + ShownRun([d], sep)) == Text(items + ShownRun([cd], sep))
  {
    var i, j, k := Item(sep, c), Item(sep, d), Item(sep, cd);
    TextOfItem(i);
    TextOfItem(j);
    TextOfItem(k);
    TextAdds(items + [i], [j]);
    TextAdds(items, [i]);
    TextAdds(items, [k]);
    assert ShownRun([c], sep) == [i] && ShownRun([d], sep) == [j] && ShownRun([cd], sep) == [k];
    Associative(Text(items), Spell(c), Spell(d));
  }

  lemma TextOfItem(i: Item)
    ensures Text([i]) == ItemText(i)
    ensures Lead(i.lead) == "" ==> ItemText(i) == Spell(i.value)
  {
    assert [i][1..] == [];
  }

  lemma SpellNegative(n: int)
    requires n > 0
    ensures Spell(-n) == "-" + Spell(n)
  {
  }

  /** 1, 3, 5, 7 and 1, 3, 57 without a separator; 1, 3, 5 and 1, 2, 3, 5 with a dash; -7, 5, 9 and -7, -6, -5, 9
      with two dashes; -3, 2, 9 and -3, -2, 9 with a comma and a dash. */
  lemma Collisions(sep: Option<string>, low: int, high: int)
    requires (low == 0 || low <= -128) && high >= 127
    requires sep in {None, Some(""), Some("-")} || (low < 0 && sep in {Some("--"), Some(",-")})
    ensures !Apart(sep, low, high)
  {
    if sep == Some("-") {
      RunsCollide(1, 3, 5, [1, 2, 3], sep, low, high);
    } else if sep == Some("--") {
      SpellNegative(5);
      assert "--" + Spell(5) == "-" + Spell(-5);
      RunsCollide(-7, 5, 9, [-7, -6, -5], sep, low, high);
    } else if sep == Some(",-") {
      SpellNegative(2);
      assert ",-" + Spell(2) == "," + Spell(-2);
      RunsCollide(-3, 2, 9, [-3, -2], sep, low, high);
    } else {
      assert Spell(57) == Spell(5) + Spell(7);
      NumbersCollide(1, 3, 5, 7, 57, sep, low, high);
    }
  }
}
