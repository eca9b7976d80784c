/** Reading back what bufDump writes (yateclass.h:7931-7973), character by character. */
module DumpReader {
  import opened Bytes
  import opened Decimals
  import opened RunText

  // ---------- what the written values mean

  /** The values first, first + 1, ..., last. */
  function Range(first: int, last: int): (r: seq<int>)
    ensures |r| == if first <= last then last - first + 1 else 0
    decreases last - first + 1
  {
    if first > last then [] else Range(first, last - 1) + [last]
  }

  /** How a reader expands the text: "a-b" stands for all values from a to b. */
  function Expanded(items: seq<Item>): seq<int>
    decreases |items|
  {
    var n := |items|;
    if n == 0 then []
    else Expanded(items[..n - 1]) + Meaning(items[..n - 1], items[n - 1])
  }

  /** What one more item adds to the text before it. */
  function Meaning(before: seq<Item>, i: Item): seq<int> {
    if before != [] && i.lead == Some("-") then Range(before[|before| - 1].value + 1, i.value) else [i.value]
  }

  lemma ExpandedLast(items: seq<Item>, i: Item)
    ensures Expanded(items + [i]) == Expanded(items) + Meaning(items, i)
  {
    var all := items + [i];
    assert all[..|all| - 1] == items && all[|all| - 1] == i;
  }

  lemma {:induction false} RangeAt(first: int, last: int, k: nat)
    requires first + k <= last
    ensures Range(first, last)[k] == first + k
    decreases last - first
  {
    if first + k < last {
      RangeAt(first, last - 1, k);
    }
  }

  lemma ConsecutiveIsRange(r: seq<int>, first: int, last: int)
    requires first <= last + 1 && |r| == last - first + 1 && forall k :: 0 <= k < |r| ==> r[k] == first + k
    ensures r == Range(first, last)
  {
    forall k | 0 <= k < |r| ensures r[k] == Range(first, last)[k] {
      RangeAt(first, last, k);
    }
  }

  lemma RunIsRange(r: seq<int>)
    requires IsRun(r)
    ensures r == Range(r[0], r[|r| - 1]) && r[1..] == Range(r[0] + 1, r[|r| - 1])
  {
    var last := r[|r| - 1];
    assert last == r[0] + (|r| - 1);
    ConsecutiveIsRange(r, r[0], last);
    ConsecutiveIsRange(r[1..], r[0] + 1, last);
  }

  /** After its first value, the text of a run expands to the rest of the run. */
  lemma ShownRunContinues(before: seq<Item>, r: seq<int>, lead: Option<string>)
    requires IsRun(r)
    ensures Expanded(before + ShownRun(r, lead)) == Expanded(before + [Item(lead, r[0])]) + r[1..]
  {
    var head := before + [Item(lead, r[0])];
    if |r| == 1 {
      assert r[1..] == [] && before + ShownRun(r, lead) == head;
      assert Expanded(head) + [] == Expanded(head);
    } else {
      var last := Item(Some(if |r| == 2 then "," else "-"), r[|r| - 1]);
      assert before + ShownRun(r, lead) == head + [last];
      ExpandedLast(head, last);
      RunIsRange(r);
    }
  }

  lemma HeadAndTail(e: seq<int>, r: seq<int>)
    requires r != []
    ensures e + [r[0]] + r[1..] == e + r
  {
  }

  /** The text of one run expands to the run, after anything it does not itself continue. */
  lemma ShownRunExpands(before: seq<Item>, r: seq<int>, lead: Option<string>)
    requires IsRun(r) && (before != [] ==> lead != Some("-"))
    ensures Expanded(before + ShownRun(r, lead)) == Expanded(before) + r
  {
    ShownRunContinues(before, r, lead);
    ExpandedLast(before, Item(lead, r[0]));
    HeadAndTail(Expanded(before), r);
  }

  lemma {:induction false} ShownExpands(runs: seq<seq<int>>, sep: Option<string>, first: bool)
    requires AllRuns(runs) && sep != Some("-")
    ensures Expanded(Shown(runs, sep, first)) == Flattened(runs)
    decreases |runs|
  {
    if runs != [] {
      ShownExpands(runs[..|runs| - 1], sep, first);
      ShownRunExpands(Shown(runs[..|runs| - 1], sep, first), runs[|runs| - 1],
                      if first && |runs| == 1 then None else sep);
    }
  }

  // ---------- the reader

  /** The text without what stands before its first number, which is nothing at the start of a string. */
  function ReadLead(t: string, sep: string, first: bool): (r: (Option<string>, string))
    ensures |r.1| <= |t|
  {
    if first then (None, t)
    else if sep <= t then (Some(sep), t[|sep|..])
    else if "," <= t then (Some(","), t[1..])
    else if "-" <= t then (Some("-"), t[1..])
    else (None, t)
  }

  /** The numbers of a text, each with what precedes it. */
  function Items(t: string, sep: string, first: bool): seq<Item>
    decreases |t|
  {
    var (lead, u) := ReadLead(t, sep, first);
    var (value, rest) := ReadInt(u);
    if |rest| < |t| then [Item(lead, value)] + Items(rest, sep, false) else []
  }

  function ReadBack(t: string, sep: string, first: bool): seq<int> {
    Expanded(Items(t, sep, first))
  }

  // ---------- separators that can be told from numbers

  /** Some number, with anything behind it, starts with q. */
  predicate MayStart(q: string, signed: bool) {
    q == "" || IsDigit(q[0]) || (signed && q[0] == '-' && (|q| == 1 || IsDigit(q[1])))
  }

  /** After a number the separator can be told from another digit, from the comma of a pair and from the dash of a
      range. */
  predicate Clear(sep: string, signed: bool) {
    && sep != "" && !IsDigit(sep[0])
    && ((sep[0] == ',' && sep != ",") || sep[0] == '-' ==> !MayStart(sep[1..], signed))
  }

  lemma NotAtStart(q: string, v: int, rest: string, signed: bool)
    requires !MayStart(q, signed) && (signed || v >= 0)
    ensures !(q <= Spell(v) + rest)
  {
    if q <= Spell(v) + rest {
      SameStart(q, Spell(v), rest);
      assert false;
    }
  }

  lemma SameStart(q: string, s: string, rest: string)
    requires q <= s + rest
    ensures forall k :: 0 <= k < |q| && k < |s| ==> q[k] == s[k]
  {
  }

  /** A value after the start of the text. */
  predicate IsOf(i: Item, sep: string, signed: bool) {
    (i.lead == Some(sep) || i.lead == Some(",") || i.lead == Some("-")) && (signed || i.value >= 0)
  }

  predicate Of(items: seq<Item>, sep: string, signed: bool) {
    forall k :: 0 <= k < |items| ==> IsOf(items[k], sep, signed)
  }

  /** What precedes a value is recognised. */
  lemma LeadBack(i: Item, rest: string, sep: string, signed: bool)
    requires Clear(sep, signed) && IsOf(i, sep, signed)
    ensures ReadLead(ItemText(i) + rest, sep, false) == (i.lead, Spell(i.value) + rest)
  {
    var u := Spell(i.value) + rest;
    var t := i.lead.value + u;
    assert ItemText(i) + rest == t;
    if i.lead == Some(sep) {
      assert t[|sep|..] == u;
    } else {
      assert t[1..] == u && t[0] == i.lead.value[0];
      if sep <= t {
        assert sep[0] == t[0] && sep[1..] <= t[1..];
        NotAtStart(sep[1..], i.value, rest, signed);
        assert false;
      }
    }
  }

  lemma TextStart(items: seq<Item>, sep: string, signed: bool)
    requires Clear(sep, signed) && Of(items, sep, signed)
    ensures Text(items) == "" || !IsDigit(Text(items)[0])
  {
    if items != [] {
      var lead := items[0].lead.value;
      assert lead != "" && Text(items)[0] == lead[0];
    }
  }

  lemma {:induction false} ItemsBack(items: seq<Item>, sep: string, signed: bool)
    requires Clear(sep, signed) && Of(items, sep, signed)
    ensures Items(Text(items), sep, false) == items
    decreases |items|
  {
    if items != [] {
      var i, rest := items[0], items[1..];
      assert IsOf(i, sep, signed) && Of(rest, sep, signed);
      LeadBack(i, Text(rest), sep, signed);
      TextStart(rest, sep, signed);
      ReadSpelled(i.value, Text(rest));
      ItemsBack(rest, sep, signed);
    }
  }

  lemma OneBack(t: string, i: Item, rest: string, sep: string)
    requires t == Spell(i.value) + rest && i.lead == None && (rest == "" || !IsDigit(rest[0]))
    ensures Items(t, sep, true) == [i] + Items(rest, sep, false)
  {
    ReadSpelled(i.value, rest);
  }

  lemma FirstBack(items: seq<Item>, sep: string, signed: bool)
    requires Clear(sep, signed) && items != [] && items[0].lead == None && Of(items[1..], sep, signed)
    ensures Items(Text(items), sep, true) == items
  {
    var i, rest := items[0], items[1..];
    TextStart(rest, sep, signed);
    ItemsBack(rest, sep, signed);
    assert ItemText(i) == "" + Spell(i.value) == Spell(i.value);
    OneBack(Text(items), i, Text(rest), sep);
  }

  // ---------- the round trip

  predicate Fits(v: seq<int>, signed: bool) {
    signed || forall k :: 0 <= k < |v| ==> v[k] >= 0
  }

  lemma FitsSplit(v: seq<int>, w: seq<int>, signed: bool)
    requires Fits(v + w, signed)
    ensures Fits(v, signed) && Fits(w, signed)
  {
    if !signed {
      forall k | 0 <= k < |v| ensures v[k] >= 0 {
        assert (v + w)[k] >= 0;
      }
      forall k | 0 <= k < |w| ensures w[k] >= 0 {
        assert (v + w)[|v| + k] >= 0;
      }
    }
  }

  /** What is shown of runs consists of their values, each but the first of a text with one of the three leads. */
  lemma {:induction false} ShownIsOf(runs: seq<seq<int>>, sep: string, first: bool, signed: bool)
    requires AllRuns(runs) && Fits(Flattened(runs), signed)
    ensures var items := Shown(runs, Some(sep), first);
            if first && runs != [] then items[0].lead == None && Of(items[1..], sep, signed) else Of(items, sep, signed)
    decreases |runs|
  {
    if runs != [] {
      var n := |runs|;
      var before, r := Shown(runs[..n - 1], Some(sep), first), runs[n - 1];
      FitsSplit(Flattened(runs[..n - 1]), r, signed);
      ShownIsOf(runs[..n - 1], sep, first, signed);
      if first && n == 1 {
        RunIsOf(r, None, sep, signed);
        assert before + ShownRun(r, None) == ShownRun(r, None);
      } else {
        RunIsOf(r, Some(sep), sep, signed);
        if first {
          OfAdds(before[1..], ShownRun(r, Some(sep)), sep, signed);
          assert (before + ShownRun(r, Some(sep)))[1..] == before[1..] + ShownRun(r, Some(sep));
        } else {
          OfAdds(before, ShownRun(r, Some(sep)), sep, signed);
        }
      }
    }
  }

  lemma OfAdds(a: seq<Item>, b: seq<Item>, sep: string, signed: bool)
    requires Of(a, sep, signed) && Of(b, sep, signed)
    ensures Of(a + b, sep, signed)
  {
  }

  lemma RunIsOf(r: seq<int>, lead: Option<string>, sep: string, signed: bool)
    requires r != [] && Fits(r, signed)
    ensures Of(ShownRun(r, lead)[1..], sep, signed)
    ensures lead == Some(sep) ==> Of(ShownRun(r, lead), sep, signed)
  {
  }

  /** The text appended for a vector is read back as the vector, whatever its order, when the separator can be told
      from the numbers. */
  lemma ReadsBack(v: seq<int>, sep: string, compact: bool, first: bool, signed: bool)
    requires Clear(sep, signed) && Fits(v, signed)
    ensures ReadBack(DumpText(v, Some(sep), compact, first), sep, first) == v
  {
    RunsAreMaximal(v);
    SinglesAreRuns(v);
    RunsReadBack(if compact && |v| > 2 then Runs(v) else Singles(v), sep, first, signed);
  }

  lemma RunsReadBack(runs: seq<seq<int>>, sep: string, first: bool, signed: bool)
    requires AllRuns(runs) && Clear(sep, signed) && Fits(Flattened(runs), signed)
    ensures ReadBack(Text(Shown(runs, Some(sep), first)), sep, first) == Flattened(runs)
  {
    var items := Shown(runs, Some(sep), first);
    ShownExpands(runs, Some(sep), first);
    ShownIsOf(runs, sep, first, signed);
    if runs == [] {
      NothingToRead(sep, first);
    } else if first {
      ShownOfSome(runs, Some(sep), first);
      FirstBack(items, sep, signed);
    } else {
      ItemsBack(items, sep, signed);
    }
  }

  lemma NothingToRead(sep: string, first: bool)
    ensures Items("", sep, first) == []
  {
  }
}
