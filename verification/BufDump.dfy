/** BaseNumVectorTemplate::bufDump (yateclass.h:7931-7952) and appendTo (yateclass.h:7970-7973). The values are only
    read, so they are a sequence. */
module BufDump {
  import opened Bytes
  import opened Decimals
  import opened RunText

  /** appendTo: no separator at the start of the text, or when none was given. */
  method AppendTo(str: string, value: int, sep: Option<string>) returns (out: string)
    ensures out == str + Text([Item(if str == "" then None else sep, value)])
    ensures out == str + (if sep.Some? && str != "" then sep.value else "") + Spell(value)
  {
    ghost var i := Item(if str == "" then None else sep, value);
    assert [i] + [] == [i];
    TextCons(i, []);
    if sep.Some? && str != "" {
      out := str + sep.value + Spell(value);
      Associative(str, sep.value, Spell(value));
    } else {
      out := str + Spell(value);
      assert "" + Spell(value) == Spell(value);
    }
    assert ItemText(i) + "" == ItemText(i);
  }

  /** The difference of two values; that of an unsigned type with the given greatest value wraps around. */
  function Diff(a: int, b: int, greatest: Option<nat>): int {
    if greatest.Some? && a < b then a - b + greatest.value + 1 else a - b
  }

  /** Append the values of buf to str. */
  method BufDump(str: string, buf: Option<seq<int>>, len: nat, sep: Option<string>, compact: bool,
                 greatest: Option<nat>)
    returns (out: string)
    requires buf.Some? ==> len <= |buf.value|
    requires buf.Some? && compact && greatest.Some? ==> Ascending(buf.value[..len])
    ensures out == str + if buf.None? then "" else DumpText(buf.value[..len], sep, compact, str == "")
    ensures buf.Some? ==>
              var runs := if compact && len > 2 then Runs(buf.value[..len]) else Singles(buf.value[..len]);
              out == str + Text(Shown(runs, sep, str == ""))
  {
    if buf.None? {
      assert str + "" == str;
      return str;
    }
    if compact && len > 2 {
      out := DumpRuns(str, buf.value, len, sep, greatest);
    } else {
      out := DumpAll(str, buf.value, len, sep);
    }
  }

  /** Every value on its own. */
  method DumpAll(str: string, buf: seq<int>, len: nat, sep: Option<string>) returns (out: string)
    requires len <= |buf|
    ensures out == str + Text(Shown(Singles(buf[..len]), sep, str == ""))
  {
    out := str;
    ghost var v := buf[..len];
    assert str + "" == str && v[..0] == [];
    for i := 0 to len
      invariant out == WithSingles(str, v[..i], sep)
    {
      WriteValue(str, v, i, sep);
      out := AppendTo(out, buf[i], sep);
    }
    assert v[..len] == v;
  }

  function WithSingles(str: string, v: seq<int>, sep: Option<string>): string {
    str + Text(Shown(Singles(v), sep, str == ""))
  }

  lemma WriteValue(str: string, v: seq<int>, i: nat, sep: Option<string>)
    requires i < |v|
    ensures var out := WithSingles(str, v[..i], sep);
            WithSingles(str, v[..i + 1], sep) == out + Text([Item(if out == "" then None else sep, v[i])])
  {
    assert v[..i + 1][..i] == v[..i];
    var runs := Singles(v[..i]);
    SinglesAreRuns(v[..i]);
    ShownMore(runs, [v[i]], sep, str);
    var lead := if WithSingles(str, v[..i], sep) == "" then None else sep;
    assert ShownRun([v[i]], lead) == [Item(lead, v[i])];
  }

  function WithRuns(str: string, v: seq<int>, sep: Option<string>): string {
    str + Text(Shown(Runs(v), sep, str == ""))
  }

  /** The values before idx have been written, as the runs that they make up, and the last of these ended there. */
  ghost predicate Written(out: string, str: string, v: seq<int>, idx: nat, sep: Option<string>) {
    && idx <= |v| && (0 < idx < |v| ==> v[idx] != v[idx - 1] + 1)
    && (forall runs :: Maximal(runs) && Flattened(runs) == v[..idx] ==> out == str + Text(Shown(runs, sep, str == "")))
  }

  /** The values from idx to before i are a run. */
  ghost predicate RunSoFar(v: seq<int>, idx: nat, i: nat) {
    idx < i <= |v| && forall k :: idx <= k < i ==> v[k] == v[idx] + (k - idx)
  }

  lemma RunSoFarIsRun(v: seq<int>, idx: nat, i: nat)
    requires RunSoFar(v, idx, i)
    ensures IsRun(v[idx..i])
  {
  }

  lemma RunGrows(v: seq<int>, idx: nat, i: nat, greatest: Option<nat>)
    requires RunSoFar(v, idx, i) && i < |v| && Diff(v[i], v[i - 1], greatest) == 1
    requires greatest.Some? ==> Ascending(v)
    ensures RunSoFar(v, idx, i + 1)
  {
    assert v[i] >= v[i - 1] || greatest.None?;
  }

  lemma NothingWritten(str: string, v: seq<int>, sep: Option<string>)
    ensures Written(str, str, v, 0, sep)
  {
    forall runs | Maximal(runs) && Flattened(runs) == v[..0]
      ensures str == str + Text(Shown(runs, sep, str == ""))
    {
      if runs != [] {
        LastOfFlattened(runs);
      }
      assert str + "" == str;
    }
  }

  lemma AllWritten(out: string, str: string, v: seq<int>, sep: Option<string>)
    requires Written(out, str, v, |v|, sep)
    ensures out == WithRuns(str, v, sep)
  {
    assert v[..|v|] == v;
    RunsAreMaximal(v);
  }

  lemma WriteRun(before: string, out: string, str: string, v: seq<int>, idx: nat, i: nat, sep: Option<string>,
                 greatest: Option<nat>)
    requires Written(before, str, v, idx, sep) && RunSoFar(v, idx, i)
    requires i < |v| ==> Diff(v[i], v[i - 1], greatest) != 1
    requires out == before + Text(ShownRun(v[idx..i], if before == "" then None else sep))
    ensures Written(out, str, v, i, sep)
  {
    var front, r := v[..idx], v[idx..i];
    Slices(v, idx, i);
    RunSoFarIsRun(v, idx, i);
    RunsAreMaximal(front);
    RunsMore(front, r);
    RunsAreMaximal(v[..i]);
    ShownMore(Runs(front), r, sep, str);
    forall runs | Maximal(runs) && Flattened(runs) == v[..i]
      ensures out == str + Text(Shown(runs, sep, str == ""))
    {
      MaximalIsUnique(runs, Runs(front) + [r]);
    }
  }

  lemma Slices(v: seq<int>, idx: nat, i: nat)
    requires idx < i <= |v|
    ensures v[..idx] + v[idx..i] == v[..i] && v[idx..i][0] == v[idx]
    ensures idx > 0 ==> v[..idx][idx - 1] == v[idx - 1]
  {
  }

  /** The part of the loop that writes the run from idx to before i. */
  method DumpRun(str: string, buf: seq<int>, idx: nat, i: nat, sep: Option<string>, greatest: Option<nat>,
                 ghost v: seq<int>) returns (out: string)
    requires idx < i <= |v| <= |buf| && v == buf[..|v|] && IsRun(v[idx..i])
    ensures out == str + Text(ShownRun(v[idx..i], if str == "" then None else sep))
  {
    ghost var r := v[idx..i];
    ghost var first := Item(if str == "" then None else sep, r[0]);
    assert r[|r| - 1] == r[0] + (|r| - 1);
    out := AppendTo(str, buf[idx], sep);
    if idx < i - 1 {
      assert Diff(buf[i - 1], buf[idx], greatest) == |r| - 1;
      ghost var last := Item(Some(if |r| == 2 then "," else "-"), r[|r| - 1]);
      TwoItems(str, first, last);
      out := AppendTo(out, buf[i - 1], Some(if Diff(buf[i - 1], buf[idx], greatest) == 1 then "," else "-"));
      assert ShownRun(r, first.lead) == [first] + [last];
    } else {
      assert ShownRun(r, first.lead) == [first];
    }
  }

  /** The part of the loop after a run has ended before i. */
  method EndRun(before: string, buf: seq<int>, idx: nat, i: nat, sep: Option<string>, greatest: Option<nat>,
                ghost str: string, ghost v: seq<int>) returns (out: string)
    requires |v| <= |buf| && v == buf[..|v|] && RunSoFar(v, idx, i) && Written(before, str, v, idx, sep)
    requires i < |v| ==> Diff(v[i], v[i - 1], greatest) != 1
    ensures Written(out, str, v, i, sep)
  {
    RunSoFarIsRun(v, idx, i);
    out := DumpRun(before, buf, idx, i, sep, greatest, v);
    WriteRun(before, out, str, v, idx, i, sep, greatest);
  }

  lemma TwoItems(str: string, a: Item, b: Item)
    ensures str + Text([a]) != ""
    ensures str + Text([a]) + Text([b]) == str + Text([a] + [b])
  {
    TextAdds([a], [b]);
    Associative(str, Text([a]), Text([b]));
  }

  /** The loop over the runs. */
  method DumpRuns(str: string, buf: seq<int>, len: nat, sep: Option<string>, greatest: Option<nat>)
    returns (out: string)
    requires 2 < len <= |buf|
    requires greatest.Some? ==> Ascending(buf[..len])
    ensures out == WithRuns(str, buf[..len], sep)
  {
    out := str;
    ghost var v := buf[..len];
    NothingWritten(str, v, sep);
    var idx: nat, i: nat := 0, 1;
    while true
      invariant i <= len && RunSoFar(v, idx, i)
      invariant Written(out, str, v, idx, sep)
      decreases len - i
    {
      if i < len && Diff(buf[i], buf[i - 1], greatest) == 1 {
        RunGrows(v, idx, i, greatest);
        i := i + 1;
        continue;
      }
      out := EndRun(out, buf, idx, i, sep, greatest, str, v);
      if i >= len {
        break;
      }
      idx := i;
      i := i + 1;
    }
    AllWritten(out, str, v, sep);
  }
}
