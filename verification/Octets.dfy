/** Bytes as numbers, bit by bit, for the arithmetic of byte order. */
module Octets {

  type octet = x: nat | x < 256

  /** The byte with the given bits, least significant first. */
  function OfBits(a: bool, b: bool, c: bool, d: bool, e: bool, f: bool, g: bool, h: bool): bv8 {
    (if a then 0x01 else 0) | (if b then 0x02 else 0) | (if c then 0x04 else 0) | (if d then 0x08 else 0)
    | (if e then 0x10 else 0) | (if f then 0x20 else 0) | (if g then 0x40 else 0) | (if h then 0x80 else 0)
  }

  predicate Odd(x: nat) {
    x % 2 == 1
  }

  function Half(x: nat): nat {
    x / 2
  }

  function Push(bit: bool, n: nat): nat {
    2 * n + if bit then 1 else 0
  }

  /** The number with the given bits. */
  function Weighed(a: bool, b: bool, c: bool, d: bool, e: bool, f: bool, g: bool, h: bool): octet {
    Push(a, Push(b, Push(c, Push(d, Push(e, Push(f, Push(g, Push(h, 0))))))))
  }

  function ToByte(x: octet): bv8 {
    var b := Half(x);
    var c := Half(b);
    var d := Half(c);
    var e := Half(d);
    var f := Half(e);
    var g := Half(f);
    OfBits(Odd(x), Odd(b), Odd(c), Odd(d), Odd(e), Odd(f), Odd(g), Odd(Half(g)))
  }

  function ToOctet(y: bv8): octet {
    Weighed(y & 0x01 != 0, y & 0x02 != 0, y & 0x04 != 0, y & 0x08 != 0,
            y & 0x10 != 0, y & 0x20 != 0, y & 0x40 != 0, y & 0x80 != 0)
  }

  lemma BitsAreSet(a: bool, b: bool, c: bool, d: bool, e: bool, f: bool, g: bool, h: bool)
    ensures var y := OfBits(a, b, c, d, e, f, g, h);
            && (y & 0x01 != 0 <==> a) && (y & 0x02 != 0 <==> b) && (y & 0x04 != 0 <==> c) && (y & 0x08 != 0 <==> d)
            && (y & 0x10 != 0 <==> e) && (y & 0x20 != 0 <==> f) && (y & 0x40 != 0 <==> g) && (y & 0x80 != 0 <==> h)
  {
  }

  lemma OctetOfBits(a: bool, b: bool, c: bool, d: bool, e: bool, f: bool, g: bool, h: bool)
    ensures ToOctet(OfBits(a, b, c, d, e, f, g, h)) == Weighed(a, b, c, d, e, f, g, h)
  {
    BitsAreSet(a, b, c, d, e, f, g, h);
  }

  lemma PushHalf(x: nat)
    ensures Push(Odd(x), Half(x)) == x
  {
  }

  lemma LowNibble(e: nat)
    requires e < 16
    ensures var f := Half(e); var g := Half(f); Push(Odd(e), Push(Odd(f), Push(Odd(g), Push(Odd(Half(g)), 0)))) == e
  {
  }

  lemma WeighedHalves(x: octet)
    ensures var b := Half(x); var c := Half(b); var d := Half(c); var e := Half(d); var f := Half(e); var g := Half(f);
            Weighed(Odd(x), Odd(b), Odd(c), Odd(d), Odd(e), Odd(f), Odd(g), Odd(Half(g))) == x
  {
    var b := Half(x);
    var c := Half(b);
    var d := Half(c);
    var e := Half(d);
    LowNibble(e);
    assert Push(Odd(d), e) == d;
    assert Push(Odd(c), d) == c;
    assert Push(Odd(b), c) == b;
    PushHalf(x);
  }

  lemma OctetOfByte(x: octet)
    ensures ToOctet(ToByte(x)) == x
  {
    var b := Half(x);
    var c := Half(b);
    var d := Half(c);
    var e := Half(d);
    var f := Half(e);
    var g := Half(f);
    OctetOfBits(Odd(x), Odd(b), Odd(c), Odd(d), Odd(e), Odd(f), Odd(g), Odd(Half(g)));
    WeighedHalves(x);
  }

  lemma OctetIsNumber(y: bv8)
    ensures ToOctet(y) == y as nat
  {
  }

  /** A byte is the number it stands for. */
  lemma ByteIsNumber(x: octet)
    ensures ToByte(x) as nat == x
  {
    OctetOfByte(x);
    OctetIsNumber(ToByte(x));
  }
}
