/** What bufDump writes (yateclass.h:7931-7973): a vector of numbers as text, optionally with runs of consecutive
    values shortened to "first,second" or "first-last". */
module RunText {
  import opened Bytes
  import opened Decimals

  // ---------- runs

  predicate Ascending(v: seq<int>) {
    forall i, j :: 0 <= i <= j < |v| ==> v[i] <= v[j]
  }

  predicate IsRun(r: seq<int>) {
    r != [] && forall k :: 0 <= k < |r| ==> r[k] == r[0] + k
  }

  function Flattened(runs: seq<seq<int>>): seq<int>
    decreases |runs|
  {
    if runs == [] then [] else Flattened(runs[..|runs| - 1]) + runs[|runs| - 1]
  }

  /** Runs that cannot be made longer: no run continues the one before it. */
  ghost predicate Maximal(runs: seq<seq<int>>) {
    && (forall k :: 0 <= k < |runs| ==> IsRun(runs[k]))
    && (forall j, k :: 0 <= j < k < |runs| && k == j + 1 ==> runs[k][0] != runs[j][|runs[j]| - 1] + 1)
  }

  predicate AllRuns(runs: seq<seq<int>>) {
    forall k :: 0 <= k < |runs| ==> IsRun(runs[k])
  }

  lemma LastOfFlattened(runs: seq<seq<int>>)
    requires runs != [] && AllRuns(runs)
    ensures var f, r := Flattened(runs), runs[|runs| - 1]; f != [] && f[|f| - 1] == r[|r| - 1]
  {
  }

  lemma MaximalMore(runs: seq<seq<int>>, r: seq<int>)
    requires Maximal(runs) && IsRun(r)
    requires runs != [] ==> Flattened(runs) != [] && r[0] != Flattened(runs)[|Flattened(runs)| - 1] + 1
    ensures Maximal(runs + [r])
  {
    if runs != [] {
      LastOfFlattened(runs);
    }
  }

  /** The runs of a vector, each as long as it can be. */
  function Runs(v: seq<int>): seq<seq<int>>
    decreases |v|
  {
    if v == [] then [] else Extended(Runs(v[..|v| - 1]), v[|v| - 1])
  }

  lemma {:induction false} RunsAreMaximal(v: seq<int>)
    ensures Maximal(Runs(v)) && Flattened(Runs(v)) == v
    decreases |v|
  {
    if v != [] {
      RunsAreMaximal(v[..|v| - 1]);
      ExtendedIsMaximal(Runs(v[..|v| - 1]), v[|v| - 1]);
      FrontAndLast(v);
    }
  }

  lemma FrontAndLast(v: seq<int>)
    requires v != []
    ensures v[..|v| - 1] + [v[|v| - 1]] == v
  {
  }

  /** Runs with one more value, which goes on with the last run or starts a new one. */
  function Extended(runs: seq<seq<int>>, x: int): seq<seq<int>> {
    var n := |runs|;
    if n > 0 && runs[n - 1] != [] && x == runs[n - 1][|runs[n - 1]| - 1] + 1 then
      runs[..n - 1] + [runs[n - 1] + [x]]
    else
      runs + [[x]]
  }

  lemma ExtendedIsMaximal(runs: seq<seq<int>>, x: int)
    requires Maximal(runs)
    ensures Maximal(Extended(runs, x)) && Flattened(Extended(runs, x)) == Flattened(runs) + [x]
  {
    var n := |runs|;
    if n > 0 && x == runs[n - 1][|runs[n - 1]| - 1] + 1 {
      var front, r := runs[..n - 1], runs[n - 1];
      assert runs == front + [r] && Extended(runs, x) == front + [r + [x]];
      LongerLast(front, r, x);
      LongerText(front, r, x);
    } else {
      assert Extended(runs, x) == runs + [[x]];
      if n > 0 {
        LastOfFlattened(runs);
      }
      MaximalMore(runs, [x]);
      FlattenedMore(runs, [x]);
    }
  }

  lemma FlattenedMore(runs: seq<seq<int>>, r: seq<int>)
    ensures Flattened(runs + [r]) == Flattened(runs) + r
  {
    assert (runs + [r])[..|runs|] == runs;
  }

  lemma LongerRun(r: seq<int>, x: int)
    requires IsRun(r) && x == r[|r| - 1] + 1
    ensures IsRun(r + [x])
  {
    assert r[|r| - 1] == r[0] + (|r| - 1);
  }

  lemma LongerLast(front: seq<seq<int>>, r: seq<int>, x: int)
    requires r != [] && Maximal(front + [r]) && x == r[|r| - 1] + 1
    ensures Maximal(front + [r + [x]])
  {
    var a, b := front + [r], front + [r + [x]];
    assert a[|front|] == r && IsRun(r);
    LongerRun(r, x);
    forall k | 0 <= k < |b| ensures IsRun(b[k]) {
      assert k < |front| ==> b[k] == a[k];
    }
    forall j, k | 0 <= j < k < |b| && k == j + 1 ensures b[k][0] != b[j][|b[j]| - 1] + 1 {
      assert b[j] == a[j] && b[k][0] == a[k][0];
    }
  }

  lemma LongerText(front: seq<seq<int>>, r: seq<int>, x: int)
    ensures Flattened(front + [r + [x]]) == Flattened(front + [r]) + [x]
  {
    FlattenedMore(front, r);
    FlattenedMore(front, r + [x]);
    assert Flattened(front) + (r + [x]) == (Flattened(front) + r) + [x];
  }

  /** There is only one way to cut a vector into runs that cannot be made longer. */
  lemma {:induction false} MaximalIsUnique(a: seq<seq<int>>, b: seq<seq<int>>)
    requires Maximal(a) && Maximal(b) && Flattened(a) == Flattened(b)
    ensures a == b
    decreases |a|
  {
    if a == [] {
      if b != [] {
        LastOfFlattened(b);
      }
    } else if b == [] {
      LastOfFlattened(a);
    } else {
      LastRunsAgree(a, b);
      MaximalFront(a);
      MaximalFront(b);
      var a', b' := a[..|a| - 1], b[..|b| - 1];
      MaximalIsUnique(a', b');
      assert a == a' + [a[|a| - 1]] && b == b' + [b[|b| - 1]];
    }
  }

  lemma MaximalFront(a: seq<seq<int>>)
    requires Maximal(a) && a != []
    ensures Maximal(a[..|a| - 1])
  {
  }

  lemma LastRunsAgree(a: seq<seq<int>>, b: seq<seq<int>>)
    requires Maximal(a) && Maximal(b) && a != [] && b != [] && Flattened(a) == Flattened(b)
    ensures a[|a| - 1] == b[|b| - 1] && Flattened(a[..|a| - 1]) == Flattened(b[..|b| - 1])
  {
    var r, q := a[|a| - 1], b[|b| - 1];
    var v, w := Flattened(a[..|a| - 1]), Flattened(b[..|b| - 1]);
    assert v + r == w + q;
    LastRunIsLongest(a, q, w);
    LastRunIsLongest(b, r, v);
    SameLengthSplit(v, r, w, q);
  }

  lemma SameLengthSplit(a: seq<int>, r: seq<int>, b: seq<int>, q: seq<int>)
    requires a + r == b + q && |r| == |q|
    ensures a == b && r == q
  {
    assert a == (a + r)[..|a|] && b == (b + q)[..|b|];
    assert r == (a + r)[|a|..] && q == (b + q)[|b|..];
  }

  /** No run at the end of the vector is longer than the last one of a maximal list. */
  lemma LastRunIsLongest(a: seq<seq<int>>, q: seq<int>, rest: seq<int>)
    requires Maximal(a) && a != [] && IsRun(q) && Flattened(a) == rest + q
    ensures |q| <= |a[|a| - 1]|
  {
    var r := a[|a| - 1];
    var before := Flattened(a[..|a| - 1]);
    if |q| > |r| {
      if |a| > 1 {
        LastOfFlattened(a[..|a| - 1]);
      }
      SplitRun(before, r, rest, q);
      assert false;
    }
  }

  /** A run goes on where it is split. */
  lemma SplitRun(a: seq<int>, b: seq<int>, rest: seq<int>, q: seq<int>)
    requires a + b == rest + q && IsRun(q) && |q| > |b| > 0
    ensures a != [] && b[0] == a[|a| - 1] + 1
  {
    var k := |q| - |b|;
    assert b[0] == (a + b)[|a|] == (rest + q)[|rest| + k] == q[k];
    assert a[|a| - 1] == (a + b)[|a| - 1] == (rest + q)[|rest| + k - 1] == q[k - 1];
  }

  /** A run that does not go on with the values before it is a run of the whole. */
  lemma RunsMore(v: seq<int>, r: seq<int>)
    requires IsRun(r) && (v != [] ==> r[0] != v[|v| - 1] + 1)
    ensures Runs(v + r) == Runs(v) + [r]
  {
    RunsAreMaximal(v);
    RunsAreMaximal(v + r);
    MaximalMore(Runs(v), r);
    FlattenedMore(Runs(v), r);
    MaximalIsUnique(Runs(v + r), Runs(v) + [r]);
  }

  /** Every value on its own. */
  function Singles(v: seq<int>): seq<seq<int>>
    decreases |v|
  {
    if v == [] then [] else Singles(v[..|v| - 1]) + [[v[|v| - 1]]]
  }

  lemma {:induction false} SinglesAreRuns(v: seq<int>)
    ensures AllRuns(Singles(v)) && Flattened(Singles(v)) == v
    decreases |v|
  {
    if v != [] {
      SinglesAreRuns(v[..|v| - 1]);
      FlattenedMore(Singles(v[..|v| - 1]), [v[|v| - 1]]);
      FrontAndLast(v);
    }
  }

  // ---------- text

  /** A value and what is written before it. */
  datatype Item = Item(lead: Option<string>, value: int)

  /** One run as text: one value, two values, or the first and the last one. */
  function ShownRun(r: seq<int>, lead: Option<string>): (items: seq<Item>)
    ensures r != [] ==> items != []
  {
    if r == [] then []
    else [Item(lead, r[0])] + if |r| == 1 then [] else [Item(Some(if |r| == 2 then "," else "-"), r[|r| - 1])]
  }

  /** Runs as text; first tells whether nothing precedes it. */
  function Shown(runs: seq<seq<int>>, sep: Option<string>, first: bool): seq<Item>
    decreases |runs|
  {
    if runs == [] then []
    else Shown(runs[..|runs| - 1], sep, first)
         + ShownRun(runs[|runs| - 1], if first && |runs| == 1 then None else sep)
  }

  function Lead(lead: Option<string>): string {
    if lead.Some? then lead.value else ""
  }

  function ItemText(i: Item): (t: string)
    ensures t != ""
  {
    Lead(i.lead) + Spell(i.value)
  }

  function Text(items: seq<Item>): string
    decreases |items|
  {
    if items == [] then "" else ItemText(items[0]) + Text(items[1..])
  }

  lemma {:induction false} TextAdds(a: seq<Item>, b: seq<Item>)
    ensures Text(a + b) == Text(a) + Text(b)
    decreases |a|
  {
    if a == [] {
      assert a + b == b;
    } else {
      var x, rest := a[0], a[1..];
      calc {
        Text(a + b);
        { assert a + b == [x] + (rest + b); }
        Text([x] + (rest + b));
        { TextCons(x, rest + b); }
        ItemText(x) + Text(rest + b);
        { TextAdds(rest, b); }
        ItemText(x) + (Text(rest) + Text(b));
        { Associative(ItemText(x), Text(rest), Text(b)); }
        ItemText(x) + Text(rest) + Text(b);
      }
    }
  }

  /** The text of one run: one value, two with a comma between them, or the first and the last with a dash. */
  lemma RunTextIs(r: seq<int>, lead: Option<string>)
    requires r != []
    ensures Text(ShownRun(r, lead)) ==
            (if lead.Some? then lead.value else "") + Spell(r[0])
            + if |r| == 1 then "" else if |r| == 2 then "," + Spell(r[1]) else "-" + Spell(r[|r| - 1])
  {
    var first := Item(lead, r[0]);
    TextOfOne(first);
    if |r| > 1 {
      var last := Item(Some(if |r| == 2 then "," else "-"), r[|r| - 1]);
      TextOfOne(last);
      TextAdds([first], [last]);
    }
  }

  lemma TextOfOne(i: Item)
    ensures Text([i]) == Lead(i.lead) + Spell(i.value)
  {
    assert [i][1..] == [];
    assert ItemText(i) + "" == ItemText(i);
  }

  /** The text of several runs: one after the other, each behind the separator but for the first of the string. */
  lemma RunsTextIs(runs: seq<seq<int>>, r: seq<int>, sep: Option<string>, first: bool)
    ensures Text(Shown([], sep, first)) == ""
    ensures Text(Shown(runs + [r], sep, first))
            == Text(Shown(runs, sep, first)) + Text(ShownRun(r, if first && runs == [] then None else sep))
  {
    assert (runs + [r])[..|runs|] == runs;
    TextAdds(Shown(runs, sep, first), ShownRun(r, if first && runs == [] then None else sep));
  }

  lemma {:induction false} SinglesAre(v: seq<int>, k: nat)
    ensures |Singles(v)| == |v| && (k < |v| ==> Singles(v)[k] == [v[k]])
    decreases |v|
  {
    if v != [] {
      SinglesAre(v[..|v| - 1], k);
    }
  }

  lemma TextOfSome(items: seq<Item>)
    requires items != []
    ensures Text(items) != ""
  {
  }

  lemma Associative(a: string, b: string, c: string)
    ensures a + (b + c) == (a + b) + c
  {
  }

  lemma TextCons(i: Item, rest: seq<Item>)
    ensures Text([i] + rest) == ItemText(i) + Text(rest)
  {
    assert ([i] + rest)[1..] == rest;
  }

  /** The text bufDump appends; first tells whether it stands at the start of the string. Vectors of up to two
      values are never shortened. */
  function DumpText(v: seq<int>, sep: Option<string>, compact: bool, first: bool): string {
    Text(Shown(if compact && |v| > 2 then Runs(v) else Singles(v), sep, first))
  }

  lemma ShownOfSome(runs: seq<seq<int>>, sep: Option<string>, first: bool)
    requires AllRuns(runs) && runs != []
    ensures Shown(runs, sep, first) != []
  {
    var r := runs[|runs| - 1];
    assert IsRun(r);
  }

  lemma ShownMore(runs: seq<seq<int>>, r: seq<int>, sep: Option<string>, str: string)
    requires AllRuns(runs)
    ensures var out := str + Text(Shown(runs, sep, str == ""));
            str + Text(Shown(runs + [r], sep, str == "")) == out + Text(ShownRun(r, if out == "" then None else sep))
  {
    assert (runs + [r])[..|runs|] == runs;
    if runs != [] {
      ShownOfSome(runs, sep, str == "");
      TextOfSome(Shown(runs, sep, str == ""));
    }
    var items, more := Shown(runs, sep, str == ""), ShownRun(r, if str == "" && runs == [] then None else sep);
    assert Shown(runs + [r], sep, str == "") == items + more;
    TextAdds(items, more);
    Associative(str, Text(items), Text(more));
  }
}
