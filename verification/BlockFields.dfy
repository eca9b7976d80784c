/** Integer fields written to a data block and read back (changeHton, changeLsb and the advance readers,
    yateclass.h:6530-6561, 6633-6650, 7330-7417). */
module BlockFields {
  import opened Bytes
  import opened Blocks
  import opened ByteOrder
  import opened Octets
  import opened Grants

  function ToBytes(s: seq<octet>): (r: seq<byte>)
    ensures |r| == |s|
    decreases |s|
  {
    if s == [] then [] else ToBytes(s[..|s| - 1]) + [ToByte(s[|s| - 1])]
  }

  function ToOctets(s: seq<byte>): (r: seq<octet>)
    ensures |r| == |s|
    decreases |s|
  {
    if s == [] then [] else ToOctets(s[..|s| - 1]) + [ToOctet(s[|s| - 1])]
  }

  lemma {:induction false} OctetsOfBytes(s: seq<octet>)
    ensures ToOctets(ToBytes(s)) == s
    decreases |s|
  {
    if s != [] {
      OctetsOfBytes(s[..|s| - 1]);
      OctetOfByte(s[|s| - 1]);
    }
  }

  lemma {:induction false} BytesOfZeros(s: seq<octet>)
    requires forall i :: 0 <= i < |s| ==> s[i] == 0
    ensures ToBytes(s) == Zeros(|s|)
    decreases |s|
  {
    if s != [] {
      BytesOfZeros(s[..|s| - 1]);
      assert Zeros(|s|) == Zeros(|s| - 1) + [0];
    }
  }

  lemma {:induction false} BytesAdd(s: seq<octet>, t: seq<octet>)
    ensures ToBytes(s + t) == ToBytes(s) + ToBytes(t)
    decreases |t|
  {
    if t == [] {
      assert s + t == s;
    } else {
      var front, last := t[..|t| - 1], ToByte(t[|t| - 1]);
      BytesAdd(s, front);
      assert (s + t)[..|s + t| - 1] == s + front && (s + t)[|s + t| - 1] == t[|t| - 1];
      assert ToBytes(s) + (ToBytes(front) + [last]) == ToBytes(s) + ToBytes(front) + [last];
    }
  }

  datatype Field = Field(value: nat, width: nat, lsb: bool)

  /** The bytes of a field; widths over 8 count as 8. */
  function Spelling(f: Field): (s: seq<octet>)
    ensures |s| == Min(f.width, 8)
  {
    if f.lsb then Lsb(f.value, Min(f.width, 8)) else Hton(f.value, Min(f.width, 8))
  }

  lemma {:induction false} ToBytesAt(s: seq<octet>, k: nat)
    requires k < |s|
    ensures ToBytes(s)[k] as nat == s[k]
    decreases |s|
  {
    if k < |s| - 1 {
      ToBytesAt(s[..|s| - 1], k);
    } else {
      ByteIsNumber(s[k]);
    }
  }

  /** The bytes of a field, as numbers: in network order the highest first, in LSB order the lowest. */
  lemma FieldBytes(f: Field, k: nat)
    requires k < (if f.width > 8 then 8 else f.width)
    ensures var w := if f.width > 8 then 8 else f.width;
            |ToBytes(Spelling(f))| == w
            && ToBytes(Spelling(f))[k] as nat
               == f.value / [0x1, 0x100, 0x1_0000, 0x100_0000, 0x1_0000_0000, 0x100_0000_0000, 0x1_0000_0000_0000,
                             0x100_0000_0000_0000][if f.lsb then k else w - 1 - k] % 256
  {
    ToBytesAt(Spelling(f), k);
    FieldAt(f.value, if f.width > 8 then 8 else f.width, k);
  }

  method Converted(buf: array<octet>, n: nat) returns (raw: array<byte>)
    requires n <= buf.Length
    ensures fresh(raw) && raw[..] == ToBytes(buf[..n])
  {
    raw := new byte[n];
    for i := 0 to n
      invariant raw[..i] == ToBytes(buf[..i])
    {
      raw[i] := ToByte(buf[i]);
      assert buf[..i + 1][..i] == buf[..i];
    }
    assert raw[..n] == raw[..];
  }

  lemma Front(a: seq<octet>, b: seq<octet>, n: nat)
    requires n == |b| && b <= a
    ensures a[..n] == b
  {
  }

  /** The local buffer that a field with a value other than zero is inserted from. */
  method Spell(f: Field, bytes: nat) returns (raw: array<byte>)
    requires f.value < UINT64 && bytes == Min(f.width, 8)
    ensures fresh(raw) && raw[..] == ToBytes(Spelling(f))
  {
    var buf := new octet[8](_ => 0);
    if f.lsb {
      var _ := LsbSetAdvance(buf, 0, f.value, bytes);
    } else {
      var _ := HtonAdvance(buf, 0, f.value, bytes);
    }
    Front(buf[..], Spelling(f), bytes);
    assert buf[..bytes] == buf[..][..bytes];
    raw := Converted(buf, bytes);
  }

  /** changeHton and changeLsb: insert a field at pos, through the fill of change when its value is zero. */
  method ChangeField(b: DataBlock, pos: nat, f: Field) returns (ok: bool)
    requires b.Valid() && f.value < UINT64 && b.Fits(b.length + Min(f.width, 8))
    modifies b, b.heap, b.data
    ensures b.Valid() && b.overAlloc == old(b.overAlloc)
    ensures b.heap.live == old(b.heap.live) - old(b.Owned()) + b.Owned()
    ensures b.data == old(b.data) || fresh(b.data)
    ensures b.heap.failures == old(b.heap.failures) + if ok then 0 else 1
    ensures b.Contents() == if ok then InsertedAt(old(b.Contents()), pos, ToBytes(Spelling(f))) else old(b.Contents())
  {
    if f.width == 0 {
      NoBytes(old(b.Contents()), pos);
      return true;
    }
    var bytes := if f.width > 8 then 8 else f.width;
    if f.value == 0 {
      ZeroSpelling(f);
      ok := b.Change(pos, null, 0, bytes);
    } else {
      var raw := Spell(f, bytes);
      WithoutFill(raw[..], bytes);
      assert raw[..bytes] == raw[..][..bytes];
      ok := b.Change(pos, raw, bytes, 0, 0, false);
    }
  }

  lemma NoBytes(s: seq<byte>, pos: nat)
    ensures InsertedAt(s, pos, []) == s
  {
  }

  lemma ZeroSpelling(f: Field)
    requires f.value == 0
    ensures [] + Repeat(0, Min(f.width, 8)) == ToBytes(Spelling(f))
  {
    ZeroField(Min(f.width, 8));
    BytesOfZeros(Spelling(f));
  }

  lemma WithoutFill(x: seq<byte>, n: nat)
    requires n == |x|
    ensures x[..n] + Repeat(0, 0) == x
  {
  }

  function Spelled(fields: seq<Field>): (s: seq<octet>)
    ensures |s| <= 8 * |fields|
    decreases |fields|
  {
    if fields == [] then [] else Spelling(fields[0]) + Spelled(fields[1..])
  }

  /** The fields whose append was granted memory. */
  function Granted(fields: seq<Field>, oks: seq<bool>): (g: seq<Field>)
    requires |fields| == |oks|
    ensures (forall k :: 0 <= k < |oks| ==> oks[k]) ==> g == fields
    decreases |fields|
  {
    if fields == [] then [] else (if oks[0] then [fields[0]] else []) + Granted(fields[1..], oks[1..])
  }

  lemma OneGranted(s: seq<byte>, f: Field, g: seq<Field>)
    ensures s + ToBytes(Spelling(f)) + ToBytes(Spelled(g)) == s + ToBytes(Spelled([f] + g))
  {
    var x, y := Spelling(f), Spelled(g);
    assert ([f] + g)[1..] == g;
    BytesAdd(x, y);
    assert s + ToBytes(x) + ToBytes(y) == s + (ToBytes(x) + ToBytes(y));
  }

  lemma AtTheEnd(s: seq<byte>, x: seq<byte>)
    ensures InsertedAt(s, |s|, x) == s + x
  {
  }

  /** The contents after the first append, followed by the rest of the run. */
  lemma OneMore(s: seq<byte>, after: seq<byte>, fields: seq<Field>, ok: bool, rest: seq<bool>)
    requires |fields| == 1 + |rest|
    requires after == if ok then InsertedAt(s, |s|, ToBytes(Spelling(fields[0]))) else s
    ensures after + ToBytes(Spelled(Granted(fields[1..], rest))) == s + ToBytes(Spelled(Granted(fields, [ok] + rest)))
  {
    var g := Granted(fields[1..], rest);
    GrantedStep(fields, ok, rest);
    if ok {
      AtTheEnd(s, ToBytes(Spelling(fields[0])));
      OneGranted(s, fields[0], g);
    }
  }

  lemma GrantedStep(fields: seq<Field>, ok: bool, rest: seq<bool>)
    requires |fields| == 1 + |rest|
    ensures var g := Granted(fields[1..], rest);
            Granted(fields, [ok] + rest) == if ok then [fields[0]] + g else g
  {
    assert ([ok] + rest)[1..] == rest;
    var g := Granted(fields[1..], rest);
    assert [] + g == g;
  }

  /** A run of appendHton and appendLsb, which do not report a failure: a field that got no memory is missing. */
  method AppendFields(b: DataBlock, fields: seq<Field>) returns (oks: seq<bool>)
    requires b.Valid() && b.Fits(b.length + 8 * |fields|)
    requires forall k :: 0 <= k < |fields| ==> fields[k].value < UINT64
    modifies b, b.heap, b.data
    ensures b.Valid() && |oks| == |fields|
    ensures b.heap.live == old(b.heap.live) - old(b.Owned()) + b.Owned()
    ensures b.data == old(b.data) || fresh(b.data)
    ensures b.heap.failures == old(b.heap.failures) + Refused(oks)
    ensures b.Contents() == old(b.Contents()) + ToBytes(Spelled(Granted(fields, oks)))
    decreases |fields|
  {
    ghost var s := b.Contents();
    if fields == [] {
      oks := [];
      assert s + ToBytes([]) == s;
      return;
    }
    var ok := ChangeField(b, b.length, fields[0]);
    ghost var after := b.Contents();
    var rest := AppendFields(b, fields[1..]);
    oks := [ok] + rest;
    OneAnswer(ok, rest);
    OneMore(s, after, fields, ok, rest);
  }

  /** Each value modulo 2^(8 * width). */
  function Masked(f: Field): (v: nat)
    ensures f.width >= 8 && f.value < UINT64 ==> v == f.value
  {
    EightBytes();
    Positive(Min(f.width, 8));
    f.value % Shl(1, Min(f.width, 8))
  }

  lemma Positive(w: nat)
    ensures Shl(1, w) > 0
  {
  }

  lemma ReadsBack(f: Field)
    ensures (if f.lsb then FromLsb(Spelling(f)) else Ntoh(Spelling(f))) == Masked(f)
  {
    var w := Min(f.width, 8);
    NtohOfHton(f.value, w);
    if f.lsb {
      LsbIsReversed(f.value, w);
      FromLsbIsNtohReversed(Spelling(f));
    }
  }

  lemma PrefixOfSum<T>(a: seq<T>, b: seq<T>, c: seq<T>)
    requires a + b <= c
    ensures a <= c && b <= c[|a|..]
  {
    assert c == a + b + c[|a| + |b|..];
  }

  /** The bytes t stand at pos. */
  predicate Ahead(buf: seq<octet>, pos: nat, t: seq<octet>) {
    pos <= |buf| && t <= buf[pos..]
  }

  lemma AheadParts(buf: seq<octet>, start: nat, a: seq<octet>, b: seq<octet>)
    requires Ahead(buf, start, a + b)
    ensures start + |a| <= |buf| && buf[start..start + |a|] == a && Ahead(buf, start + |a|, b)
  {
    PrefixOfSum(a, b, buf[start..]);
    assert buf[start..start + |a|] == buf[start..][..|a|];
    assert buf[start..][|a|..] == buf[start + |a|..];
  }

  /** One advance reader; what follows the field stays to be read. */
  method ReadField(buf: seq<octet>, start: nat, f: Field, ghost rest: seq<octet>) returns (v: nat, pos: nat)
    requires Ahead(buf, start, Spelling(f) + rest)
    ensures v == Masked(f) && pos == start + |Spelling(f)| && Ahead(buf, pos, rest)
  {
    AheadParts(buf, start, Spelling(f), rest);
    ReadsBack(f);
    if f.lsb {
      v, pos := LsbAdvance(buf, start, f.width);
    } else {
      v, pos := NtohAdvance(buf, start, f.width);
    }
  }

  lemma SpelledStep(fields: seq<Field>, i: nat)
    requires i < |fields|
    ensures Spelled(fields[i..]) == Spelling(fields[i]) + Spelled(fields[i + 1..])
  {
    assert fields[i..][1..] == fields[i + 1..];
  }

  lemma OneMoreRead(vals: seq<nat>, v: nat, fields: seq<Field>, i: nat)
    requires |vals| == i < |fields| && v == Masked(fields[i])
    requires forall k :: 0 <= k < i ==> vals[k] == Masked(fields[k])
    ensures forall k :: 0 <= k < i + 1 ==> (vals + [v])[k] == Masked(fields[k])
  {
  }

  /** Reading the fields one after the other where they were written gives every value modulo 2^(8 * width),
      and stops exactly where they end. */
  method ReadFields(buf: seq<octet>, start: nat, fields: seq<Field>) returns (vals: seq<nat>, pos: nat)
    requires Ahead(buf, start, Spelled(fields))
    ensures |vals| == |fields| && forall k :: 0 <= k < |vals| ==> vals[k] == Masked(fields[k])
    ensures pos == start + |Spelled(fields)|
  {
    vals, pos := [], start;
    ghost var todo := Spelled(fields);
    assert fields[0..] == fields;
    for i := 0 to |fields|
      invariant |vals| == i && forall k :: 0 <= k < i ==> vals[k] == Masked(fields[k])
      invariant todo == Spelled(fields[i..]) && Ahead(buf, pos, todo)
      invariant pos + |todo| == start + |Spelled(fields)|
    {
      SpelledStep(fields, i);
      todo := Spelled(fields[i + 1..]);
      var v;
      v, pos := ReadField(buf, pos, fields[i], todo);
      OneMoreRead(vals, v, fields, i);
      vals := vals + [v];
    }
    assert todo == [];
  }

  /** Append fields to a block, then read them back from where they start: every value comes back modulo
      2^(8 * width) and the last one ends where the block ends; a field is missing only if memory was refused. */
  method AppendThenRead(b: DataBlock, fields: seq<Field>) returns (vals: seq<nat>, oks: seq<bool>)
    requires b.Valid() && b.Fits(b.length + 8 * |fields|)
    requires forall k :: 0 <= k < |fields| ==> fields[k].value < UINT64
    modifies b, b.heap, b.data
    ensures b.Valid() && |oks| == |fields|
    ensures |vals| == |Granted(fields, oks)|
    ensures forall k :: 0 <= k < |vals| ==> vals[k] == Masked(Granted(fields, oks)[k])
    ensures b.heap.failures == old(b.heap.failures) + Refused(oks)
    ensures b.heap.failures == old(b.heap.failures) ==> Granted(fields, oks) == fields
    ensures b.length == old(b.length) + |Spelled(Granted(fields, oks))|
  {
    var start := b.length;
    oks := AppendFields(b, fields);
    NoneRefused(oks);
    var g := Granted(fields, oks);
    var buf: seq<octet> := [];
    if b.data != null {
      assert b.data[start..b.length] == b.Contents()[start..];
      buf := ToOctets(b.data[start..b.length]);
    }
    assert b.Contents()[start..] == ToBytes(Spelled(g));
    OctetsOfBytes(Spelled(g));
    assert buf == Spelled(g) == buf[0..];
    var pos: nat;
    vals, pos := ReadFields(buf, 0, g);
    assert pos == |buf|;
  }
}
