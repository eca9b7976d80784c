/** Fields of up to 8 bytes in network (big endian) or LSB byte order (yateclass.h:6475-6561, 7000-7417).
    Values are naturals below 2^64; shifting right by 8k bits is dividing by 256 k times, and OR-ing a byte into
    bits that are still zero is adding it. */
module ByteOrder {
  import opened Bytes
  import opened Numbers
  import opened Octets

  const UINT64 := 0x1_0000_0000_0000_0000

  /** v >> 8k */
  function Shr(v: nat, k: nat): nat
    decreases k
  {
    if k == 0 then v else Shr(v / 256, k - 1)
  }

  /** x << 8k */
  function Shl(x: nat, k: nat): (r: nat)
    ensures x > 0 ==> r > 0
    decreases k
  {
    if k == 0 then x else 256 * Shl(x, k - 1)
  }

  /** The w low bytes of v, most significant first. */
  function Hton(v: nat, w: nat): (s: seq<octet>)
    ensures |s| == w
    decreases w
  {
    if w == 0 then [] else Hton(v / 256, w - 1) + [v % 256]
  }

  /** The w low bytes of v, least significant first. */
  function Lsb(v: nat, w: nat): (s: seq<octet>)
    ensures |s| == w
    decreases w
  {
    if w == 0 then [] else [v % 256] + Lsb(v / 256, w - 1)
  }

  function Ntoh(s: seq<octet>): nat
    decreases |s|
  {
    if s == [] then 0 else 256 * Ntoh(s[..|s| - 1]) + s[|s| - 1]
  }

  function FromLsb(s: seq<octet>): nat
    decreases |s|
  {
    if s == [] then 0 else s[0] + 256 * FromLsb(s[1..])
  }

  function Reversed<T>(s: seq<T>): (r: seq<T>)
    ensures |r| == |s|
    decreases |s|
  {
    if s == [] then [] else Reversed(s[1..]) + [s[0]]
  }

  // ---------- single bytes

  lemma {:induction false} HtonAt(v: nat, w: nat, i: nat)
    requires i < w
    ensures Hton(v, w)[i] == Shr(v, w - 1 - i) % 256
    decreases w
  {
    if i < w - 1 {
      HtonAt(v / 256, w - 1, i);
    }
  }

  lemma {:induction false} LsbAt(v: nat, w: nat, i: nat)
    requires i < w
    ensures Lsb(v, w)[i] == Shr(v, i) % 256
    decreases w
  {
    if i > 0 {
      LsbAt(v / 256, w - 1, i - 1);
    }
  }

  lemma {:induction false} ShlAdds(x: nat, y: nat, k: nat)
    ensures Shl(x + y, k) == Shl(x, k) + Shl(y, k)
    decreases k
  {
    if k > 0 {
      ShlAdds(x, y, k - 1);
    }
  }

  lemma {:induction false} ShlOfTimes(x: nat, k: nat)
    ensures Shl(256 * x, k) == Shl(x, k + 1)
    decreases k
  {
    if k > 0 {
      ShlOfTimes(x, k - 1);
    }
  }

  lemma {:induction false} ShlIsTimes(x: nat, k: nat)
    ensures Shl(x, k) == Shl(1, k) * x
    decreases k
  {
    if k > 0 {
      ShlIsTimes(x, k - 1);
      assert 256 * (Shl(1, k - 1) * x) == (256 * Shl(1, k - 1)) * x;
    }
  }

  // ---------- round trips

  /** A value is its w low bytes and the rest above them. */
  lemma {:induction false} HtonKeepsLow(v: nat, w: nat)
    ensures v == Ntoh(Hton(v, w)) + Shl(Shr(v, w), w) && Ntoh(Hton(v, w)) < Shl(1, w)
    decreases w
  {
    if w > 0 {
      var h := Hton(v, w);
      HtonKeepsLow(v / 256, w - 1);
      assert h[..w - 1] == Hton(v / 256, w - 1);
    }
  }

  /** Reading back a field of w bytes gives the value modulo 2^(8w). */
  lemma NtohOfHton(v: nat, w: nat)
    ensures Ntoh(Hton(v, w)) == v % Shl(1, w)
    ensures w == 8 && v < UINT64 ==> Ntoh(Hton(v, w)) == v
  {
    HtonKeepsLow(v, w);
    ShlIsTimes(Shr(v, w), w);
    ShlIsTimes(1, w);
    Quotient(v, Shl(1, w), Shr(v, w), Ntoh(Hton(v, w)));
    if w == 8 && v < UINT64 {
      EightBytes();
      Quotient(v, UINT64, 0, v);
    }
  }

  lemma EightBytes()
    ensures Shl(1, 8) == UINT64
  {
    assert Shl(1, 2) == 256 * Shl(1, 1);
    assert Shl(1, 4) == 256 * (256 * Shl(1, 2));
    assert Shl(1, 6) == 256 * (256 * Shl(1, 4));
    assert Shl(1, 8) == 256 * (256 * Shl(1, 6));
  }

  /** Any bytes are the field of the value they are read as. */
  lemma {:induction false} HtonOfNtoh(s: seq<octet>)
    ensures Hton(Ntoh(s), |s|) == s
    decreases |s|
  {
    if s != [] {
      HtonOfNtoh(s[..|s| - 1]);
    }
  }

  /** The LSB form is the reversal of the network form, for writing and for reading. */
  lemma {:induction false} LsbIsReversed(v: nat, w: nat)
    ensures Reversed(Lsb(v, w)) == Hton(v, w)
    decreases w
  {
    if w > 0 {
      LsbIsReversed(v / 256, w - 1);
      assert Lsb(v, w)[1..] == Lsb(v / 256, w - 1);
    }
  }

  lemma {:induction false} FromLsbIsNtohReversed(s: seq<octet>)
    ensures FromLsb(s) == Ntoh(Reversed(s))
    decreases |s|
  {
    if s != [] {
      FromLsbIsNtohReversed(s[1..]);
      assert Reversed(s)[..|s| - 1] == Reversed(s[1..]);
    }
  }

  /** A value of zero is a field of zero bytes. */
  lemma {:induction false} ZeroField(w: nat)
    ensures Hton(0, w) == seq(w, _ => 0) == Lsb(0, w)
  {
    if w > 0 {
      ZeroField(w - 1);
    }
  }

  // ---------- places

  /** Shifting right by k bytes is dividing by the k-th power of 256. */
  lemma ShrIs(v: nat, k: nat)
    requires k < 8
    ensures Shr(v, k) == v / [0x1, 0x100, 0x1_0000, 0x100_0000, 0x1_0000_0000, 0x100_0000_0000, 0x1_0000_0000_0000,
                              0x100_0000_0000_0000][k]
  {
    ShrByTwo(v);
    DivDiv(v);
    if k >= 2 {
      ShrTwice(v, k);
    }
    if k >= 4 {
      ShrTwice(v / 0x1_0000, k - 2);
    }
    if k >= 6 {
      ShrTwice(v / 0x1_0000_0000, k - 4);
    }
  }

  lemma ShrByTwo(v: nat)
    ensures Shr(v, 0) == v && Shr(v, 1) == v / 0x100
  {
  }

  lemma ShrTwice(v: nat, k: nat)
    requires k >= 2
    ensures Shr(v, k) == Shr(v / 0x1_0000, k - 2)
  {
    assert v / 0x100 / 0x100 == v / 0x1_0000;
  }

  /** In network order the byte at place i is the one that many bytes from the top, in LSB order from the bottom. */
  lemma FieldAt(v: nat, w: nat, i: nat)
    requires i < w <= 8
    ensures Hton(v, w)[i] == v / [0x1, 0x100, 0x1_0000, 0x100_0000, 0x1_0000_0000, 0x100_0000_0000,
                                  0x1_0000_0000_0000, 0x100_0000_0000_0000][w - 1 - i] % 256
    ensures Lsb(v, w)[i] == v / [0x1, 0x100, 0x1_0000, 0x100_0000, 0x1_0000_0000, 0x100_0000_0000,
                                 0x1_0000_0000_0000, 0x100_0000_0000_0000][i] % 256
  {
    HtonAt(v, w, i);
    LsbAt(v, w, i);
    ShrIs(v, w - 1 - i);
    ShrIs(v, i);
  }

  // ---------- the loops

  /** What the first i bytes of a field of n bytes contribute: each one shifted to its place. */
  lemma NtohStep(s: seq<octet>, i: nat)
    requires i < |s|
    ensures Shl(Ntoh(s[..i]), |s| - i) + Shl(s[i], |s| - 1 - i) == Shl(Ntoh(s[..i + 1]), |s| - 1 - i)
  {
    var k := |s| - 1 - i;
    assert s[..i + 1][..i] == s[..i];
    ShlAdds(256 * Ntoh(s[..i]), s[i], k);
    ShlOfTimes(Ntoh(s[..i]), k);
  }

  /** ntohAdvance: read a field at pos, leave the position behind it. */
  method NtohAdvance(buf: seq<octet>, pos: nat, bytes: nat) returns (val: nat, pos': nat)
    requires pos + Min(bytes, 8) <= |buf|
    ensures pos' == pos + Min(bytes, 8) && val == Ntoh(buf[pos..pos'])
  {
    if bytes > 7 {
      val, pos' := Ntoh8(buf, pos), pos + 8;
      Ntoh8IsNtoh(buf, pos);
      return;
    }
    ghost var s := buf[pos..pos + bytes];
    val, pos' := 0, pos;
    assert s[..0] == [] && Shl(0, bytes) == 0 by {
      ShlIsTimes(0, bytes);
    }
    var n: nat := bytes;
    while n > 0
      invariant n <= bytes && pos' == pos + bytes - n
      invariant val == Shl(Ntoh(s[..bytes - n]), n)
    {
      NtohStep(s, bytes - n);
      n := n - 1;
      val := val + Shl(buf[pos'], n);
      pos' := pos' + 1;
    }
    assert s[..bytes] == s;
  }

  /** htonAdvance: write a field to the buffer at pos, leave the position behind it. */
  method HtonAdvance(buf: array<octet>, pos: nat, val: nat, bytes: nat) returns (pos': nat)
    requires pos + Min(bytes, 8) <= buf.Length
    modifies buf
    ensures pos' == pos + Min(bytes, 8)
    ensures buf[..] == old(buf[..pos]) + Hton(val, Min(bytes, 8)) + old(buf[pos'..])
  {
    if bytes > 7 {
      var s := Hton8(val);
      forall k | 0 <= k < 8 {
        buf[pos + k] := s[k];
      }
      Hton8IsHton(val);
      return pos + 8;
    }
    pos' := pos;
    ghost var h := Hton(val, bytes);
    var n: nat := bytes;
    while n > 0
      invariant n <= bytes && pos' == pos + bytes - n
      invariant buf[..] == old(buf[..pos]) + h[..bytes - n] + old(buf[pos'..])
    {
      HtonAt(val, bytes, bytes - n);
      n := n - 1;
      buf[pos'] := Shr(val, n) % 256;
      pos' := pos' + 1;
    }
  }

  /** lsbSetAdvance. */
  method LsbSetAdvance(buf: array<octet>, pos: nat, val: nat, bytes: nat) returns (pos': nat)
    requires pos + Min(bytes, 8) <= buf.Length
    modifies buf
    ensures pos' == pos + Min(bytes, 8)
    ensures buf[..] == old(buf[..pos]) + Lsb(val, Min(bytes, 8)) + old(buf[pos'..])
  {
    var w := if bytes > 8 then 8 else bytes;
    ghost var h := Lsb(val, w);
    for i := 0 to w
      invariant buf[..] == old(buf[..pos]) + h[..i] + old(buf[pos + i..])
    {
      LsbAt(val, w, i);
      buf[pos + i] := Shr(val, i) % 256;
    }
    pos' := pos + w;
  }

  /** lsbAdvance. */
  method LsbAdvance(buf: seq<octet>, pos: nat, bytes: nat) returns (val: nat, pos': nat)
    requires pos + Min(bytes, 8) <= |buf|
    ensures pos' == pos + Min(bytes, 8) && val == FromLsb(buf[pos..pos'])
  {
    var w := if bytes > 8 then 8 else bytes;
    ghost var s := buf[pos..pos + w];
    val := 0;
    assert s[0..] == s;
    for i := 0 to w
      invariant val + Shl(FromLsb(s[i..]), i) == FromLsb(s)
    {
      assert s[i..][1..] == s[i + 1..];
      ShlAdds(s[i], 256 * FromLsb(s[i + 1..]), i);
      ShlOfTimes(FromLsb(s[i + 1..]), i);
      val := val + Shl(buf[pos + i], i);
    }
    ShlIsTimes(0, w);
    pos' := pos + w;
  }

  // ---------- the unrolled forms

  function Ntoh8(b: seq<octet>, p: nat): nat
    requires p + 8 <= |b|
  {
    (b[p] as int) * 0x100_0000_0000_0000 + (b[p + 1] as int) * 0x1_0000_0000_0000 + (b[p + 2] as int) * 0x100_0000_0000
    + (b[p + 3] as int) * 0x1_0000_0000 + (b[p + 4] as int) * 0x100_0000 + (b[p + 5] as int) * 0x1_0000
    + (b[p + 6] as int) * 0x100 + b[p + 7]
  }

  function Ntoh4(b: seq<octet>): nat
    requires |b| == 4
  {
    (b[0] as int) * 0x100_0000 + (b[1] as int) * 0x1_0000 + (b[2] as int) * 0x100 + b[3]
  }

  function Ntoh3(b: seq<octet>): nat
    requires |b| == 3
  {
    (b[0] as int) * 0x1_0000 + (b[1] as int) * 0x100 + b[2]
  }

  function Ntoh2(b: seq<octet>): nat
    requires |b| == 2
  {
    (b[0] as int) * 0x100 + b[1]
  }

  function Hton8(v: nat): seq<octet> {
    [v / 0x100_0000_0000_0000 % 256, v / 0x1_0000_0000_0000 % 256, v / 0x100_0000_0000 % 256, v / 0x1_0000_0000 % 256,
     v / 0x100_0000 % 256, v / 0x1_0000 % 256, v / 0x100 % 256, v % 256]
  }

  function Hton4(v: nat): seq<octet> {
    [v / 0x100_0000 % 256, v / 0x1_0000 % 256, v / 0x100 % 256, v % 256]
  }

  function Hton3(v: nat): seq<octet> {
    [v / 0x1_0000 % 256, v / 0x100 % 256, v % 256]
  }

  function Hton2(v: nat): seq<octet> {
    [v / 0x100 % 256, v % 256]
  }

  lemma NtohSplit(a: seq<octet>, x: octet, y: octet)
    ensures Ntoh(a + [x, y]) == 0x1_0000 * Ntoh(a) + 0x100 * x + y
  {
    var s := a + [x, y];
    assert s[..|s| - 1] == a + [x] && (a + [x])[..|a|] == a;
  }

  lemma Ntoh4IsNtoh(b: seq<octet>)
    requires |b| == 4
    ensures Ntoh4(b) == Ntoh(b)
  {
    NtohSplit([], b[0], b[1]);
    NtohSplit([] + [b[0], b[1]], b[2], b[3]);
    assert b == [] + [b[0], b[1]] + [b[2], b[3]];
  }

  lemma Ntoh8IsNtoh(b: seq<octet>, p: nat)
    requires p + 8 <= |b|
    ensures Ntoh8(b, p) == Ntoh(b[p..p + 8])
  {
    var s := b[p..p + 8];
    Ntoh4IsNtoh(s[..4]);
    NtohSplit(s[..4], s[4], s[5]);
    NtohSplit(s[..4] + [s[4], s[5]], s[6], s[7]);
    assert s == s[..4] + [s[4], s[5]] + [s[6], s[7]];
  }

  lemma Ntoh32IsNtoh(b3: seq<octet>, b2: seq<octet>)
    requires |b3| == 3 && |b2| == 2
    ensures Ntoh3(b3) == Ntoh(b3) && Ntoh2(b2) == Ntoh(b2)
  {
    NtohSplit([b3[0]], b3[1], b3[2]);
    assert b3 == [b3[0]] + [b3[1], b3[2]];
    assert [b3[0]][..0] == [];
    NtohSplit([], b2[0], b2[1]);
    assert b2 == [] + [b2[0], b2[1]];
  }

  lemma HtonSplit(v: nat, w: nat)
    requires w >= 2
    ensures Hton(v, w) == Hton(v / 0x1_0000, w - 2) + [v / 0x100 % 256, v % 256]
  {
    assert v / 256 / 256 == v / 0x1_0000;
  }

  lemma Hton4IsHton(v: nat)
    ensures Hton4(v) == Hton(v, 4)
  {
    HtonSplit(v, 4);
    HtonSplit(v / 0x1_0000, 2);
  }

  lemma DivDiv(v: nat)
    ensures v / 0x1_0000_0000 / 0x100 == v / 0x100_0000_0000
    ensures v / 0x1_0000_0000 / 0x1_0000 == v / 0x1_0000_0000_0000
    ensures v / 0x1_0000_0000 / 0x100_0000 == v / 0x100_0000_0000_0000
    ensures v / 0x1_0000 / 0x1_0000 == v / 0x1_0000_0000
    ensures v / 0x1_0000 / 0x100 == v / 0x100_0000
  {
  }

  lemma Hton8IsHton(v: nat)
    ensures Hton8(v) == Hton(v, 8)
  {
    DivDiv(v);
    HtonSplit(v, 8);
    HtonSplit(v / 0x1_0000, 6);
    Hton4IsHton(v / 0x1_0000_0000);
    assert Hton(v, 8) == Hton4(v / 0x1_0000_0000)
                         + [v / 0x1_0000 / 0x100 % 256, v / 0x1_0000 % 256] + [v / 0x100 % 256, v % 256];
  }

  lemma Hton32IsHton(v: nat)
    ensures Hton3(v) == Hton(v, 3) && Hton2(v) == Hton(v, 2)
  {
    HtonSplit(v, 3);
    HtonSplit(v, 2);
  }
}
