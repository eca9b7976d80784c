/** Whole numbers in decimal, as they are written to strings (engine/String.cpp:1148-1174) and read back. */
module Decimals {

  predicate IsDigit(c: char) {
    '0' <= c <= '9'
  }

  function Digit(d: nat): (c: char)
    requires d < 10
    ensures IsDigit(c) && c as int == '0' as int + d
  {
    "0123456789"[d]
  }

  function DigitValue(c: char): (d: nat)
    requires IsDigit(c)
    ensures d < 10 && c as int == '0' as int + d
  {
    c as int - '0' as int
  }

  function Decimal(n: nat): (s: string)
    ensures s != "" && forall k :: 0 <= k < |s| ==> IsDigit(s[k])
  {
    if n < 10 then [Digit(n)] else Decimal(n / 10) + [Digit(n % 10)]
  }

  function Spell(v: int): (s: string)
    ensures s != ""
    ensures if v < 0 then s[0] == '-' && |s| > 1 && IsDigit(s[1]) else IsDigit(s[0])
  {
    if v < 0 then "-" + Decimal(-v) else Decimal(v)
  }

  /** One digit more at the end, for the numbers there are and their sign. */
  lemma SpellIs(n: nat, d: nat)
    requires d < 10
    ensures Spell(d) == [('0' as int + d) as char]
    ensures n > 0 ==> Spell(10 * n + d) == Spell(n) + [('0' as int + d) as char]
    ensures n > 0 ==> Spell(-(n as int)) == "-" + Spell(n)
  {
  }

  /** The number that acc and the digits at the start of t make, and what follows them. */
  function ReadNat(t: string, acc: nat): (r: (nat, string))
    ensures |r.1| <= |t|
    decreases |t|
  {
    if t != "" && IsDigit(t[0]) then ReadNat(t[1..], 10 * acc + DigitValue(t[0])) else (acc, t)
  }

  function ReadInt(t: string): (r: (int, string))
    ensures |r.1| <= |t|
  {
    if t != "" && t[0] == '-' then var (n, rest) := ReadNat(t[1..], 0); var v: int := -(n as int); (v, rest)
    else var (n, rest) := ReadNat(t, 0); (n as int, rest)
  }

  lemma {:induction false} ReadDecimal(n: nat, rest: string)
    ensures ReadNat(Decimal(n) + rest, 0) == ReadNat(rest, n)
    decreases n
  {
    var d := Digit(n % 10);
    assert DigitValue(d) == n % 10;
    assert ([d] + rest)[1..] == rest;
    if n >= 10 {
      ReadDecimal(n / 10, [d] + rest);
      assert Decimal(n) + rest == Decimal(n / 10) + ([d] + rest);
    }
  }

  lemma ReadNatural(n: nat, rest: string)
    requires rest == "" || !IsDigit(rest[0])
    ensures ReadNat(Decimal(n) + rest, 0) == (n, rest)
    ensures IsDigit((Decimal(n) + rest)[0])
  {
    ReadDecimal(n, rest);
    assert (Decimal(n) + rest)[0] == Decimal(n)[0];
  }

  lemma ReadSigned(t: string)
    ensures var r := ReadNat(t, 0); ReadInt("-" + t) == (-(r.0 as int), r.1)
  {
    assert ("-" + t)[1..] == t;
  }

  /** A number is read back, whatever follows it that is not another digit. */
  lemma ReadSpelled(v: int, rest: string)
    requires rest == "" || !IsDigit(rest[0])
    ensures ReadInt(Spell(v) + rest) == (v, rest)
  {
    if v < 0 {
      ReadNatural(-v, rest);
      ReadSigned(Decimal(-v) + rest);
      assert Spell(v) + rest == "-" + (Decimal(-v) + rest);
    } else {
      ReadNatural(v, rest);
    }
  }
}
