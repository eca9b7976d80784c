/** DataBlock::sqlEscape (engine/DataBlock.cpp:455-496). */
module SqlEscape {
  import opened Bytes

  const NUL: byte := 0
  const CR: byte := 0x0d
  const LF: byte := 0x0a
  const BACKSLASH: byte := 0x5c
  const QUOTE: byte := 0x27
  const ZERO: byte := 0x30
  const LOWER_R: byte := 0x72
  const LOWER_N: byte := 0x6e

  predicate IsEscape(c: byte, extra: byte) {
    c == NUL || c == CR || c == LF || c == BACKSLASH || c == QUOTE || c == extra
  }

  /** The character written after the backslash. */
  function Letter(c: byte): byte {
    if c == NUL then ZERO else if c == CR then LOWER_R else if c == LF then LOWER_N else c
  }

  /** What the character after a backslash stands for. */
  function Meant(c: byte): byte {
    if c == ZERO then NUL else if c == LOWER_R then CR else if c == LOWER_N then LF else c
  }

  function EscapeOne(c: byte, extra: byte): seq<byte> {
    if IsEscape(c, extra) then [BACKSLASH, Letter(c)] else [c]
  }

  function Escaped(s: seq<byte>, extra: byte): (t: seq<byte>)
    ensures |t| >= |s|
    decreases |s|
  {
    if s == [] then [] else EscapeOne(s[0], extra) + Escaped(s[1..], extra)
  }

  function Unescaped(t: seq<byte>): seq<byte>
    decreases |t|
  {
    if t == [] then []
    else if t[0] == BACKSLASH && |t| > 1 then [Meant(t[1])] + Unescaped(t[2..])
    else [t[0]] + Unescaped(t[1..])
  }

  /** Text made of bare characters that need no escape and of backslash pairs that name one that does. */
  predicate WellEscaped(t: seq<byte>, extra: byte)
    decreases |t|
  {
    if t == [] then true
    else if t[0] == BACKSLASH then
      |t| > 1 && t[1] == Letter(Meant(t[1])) && IsEscape(Meant(t[1]), extra) && WellEscaped(t[2..], extra)
    else !IsEscape(t[0], extra) && WellEscaped(t[1..], extra)
  }

  /** No extra escape that collides with a letter standing for another character. */
  predicate Plain(extra: byte) {
    extra != ZERO && extra != LOWER_R && extra != LOWER_N
  }

  lemma {:induction false} EscapedAdds(s: seq<byte>, t: seq<byte>, extra: byte)
    ensures Escaped(s + t, extra) == Escaped(s, extra) + Escaped(t, extra)
    decreases |s|
  {
    if s == [] {
      assert s + t == t;
    } else {
      EscapedAdds(s[1..], t, extra);
      assert (s + t)[1..] == s[1..] + t;
    }
  }

  /** The escaped form of one byte; with EscapedAdds, that of any bytes. */
  lemma EscapedByte(c: byte, extra: byte)
    ensures Escaped([], extra) == []
    ensures Escaped([c], extra) == if c == 0x00 then [0x5c, 0x30]        // backslash 0
                                   else if c == 0x0d then [0x5c, 0x72]   // backslash r
                                   else if c == 0x0a then [0x5c, 0x6e]   // backslash n
                                   else if c == 0x5c then [0x5c, 0x5c]
                                   else if c == 0x27 then [0x5c, 0x27]
                                   else if c == extra then [0x5c, extra]
                                   else [c]
  {
    assert [c][1..] == [];
    assert EscapeOne(c, extra) + [] == EscapeOne(c, extra);
  }

  /** Whatever the extra escape, no byte is left bare that needs escaping: the text is made of bare characters that
      do not and of pairs that name one that does. */
  lemma {:induction false} NothingBare(s: seq<byte>, extra: byte)
    ensures WellEscaped(Escaped(s, extra), extra)
    decreases |s|
  {
    if s != [] {
      var e, rest := EscapeOne(s[0], extra), Escaped(s[1..], extra);
      NothingBare(s[1..], extra);
      assert (e + rest)[|e|..] == rest;
    }
  }

  /** Neither a string nor a line ends inside the text: it holds no NUL, CR or LF, and a quote or an extra escape
      comes right behind a backslash. */
  lemma {:induction false} NothingEnds(s: seq<byte>, extra: byte, k: nat)
    requires k < |Escaped(s, extra)|
    ensures var t := Escaped(s, extra);
            && t[k] != NUL && t[k] != CR && t[k] != LF
            && (t[k] == QUOTE || (t[k] == extra && extra != BACKSLASH) ==> k > 0 && t[k - 1] == BACKSLASH)
    decreases |s|
  {
    var e := EscapeOne(s[0], extra);
    if k >= |e| {
      NothingEnds(s[1..], extra, k - |e|);
    }
  }

  /** With an extra escape that does not collide, unescaping undoes escaping. */
  lemma {:induction false} UnescapedEscaped(s: seq<byte>, extra: byte)
    requires Plain(extra)
    ensures Unescaped(Escaped(s, extra)) == s
    decreases |s|
  {
    if s != [] {
      var e, rest := EscapeOne(s[0], extra), Escaped(s[1..], extra);
      UnescapedEscaped(s[1..], extra);
      assert (e + rest)[|e|..] == rest;
    }
  }

  lemma {:induction false} EscapedUnescaped(t: seq<byte>, extra: byte)
    requires WellEscaped(t, extra)
    ensures Escaped(Unescaped(t), extra) == t
    decreases |t|
  {
    if t != [] {
      if t[0] == BACKSLASH {
        EscapedUnescaped(t[2..], extra);
        assert t == [t[0], t[1]] + t[2..];
        assert ([Meant(t[1])] + Unescaped(t[2..]))[1..] == Unescaped(t[2..]);
      } else {
        EscapedUnescaped(t[1..], extra);
        assert ([t[0]] + Unescaped(t[1..]))[1..] == Unescaped(t[1..]);
      }
    }
  }

  /** The well-escaped texts are exactly what escaping produces, whatever the extra escape. */
  lemma WellEscapedIff(t: seq<byte>, extra: byte)
    ensures WellEscaped(t, extra) <==> exists s :: Escaped(s, extra) == t
  {
    if WellEscaped(t, extra) {
      EscapedUnescaped(t, extra);
    } else if s :| Escaped(s, extra) == t {
      NothingBare(s, extra);
      assert false;
    }
  }

  /** Escaping tells all byte strings apart exactly when the extra escape is none of '0', 'r' and 'n'. */
  lemma InjectiveIff(extra: byte)
    ensures (forall s, t :: Escaped(s, extra) == Escaped(t, extra) ==> s == t) <==> Plain(extra)
  {
    if Plain(extra) {
      forall s, t | Escaped(s, extra) == Escaped(t, extra)
        ensures s == t
      {
        UnescapedEscaped(s, extra);
        UnescapedEscaped(t, extra);
      }
    } else {
      Collision(extra);
    }
  }

  /** Escaping 'n' too, for example, makes a line feed and an 'n' read the same. */
  lemma Collision(extra: byte)
    requires !Plain(extra)
    ensures Meant(extra) != extra && Escaped([Meant(extra)], extra) == Escaped([extra], extra)
  {
    forall c: byte
      ensures Escaped([c], extra) == EscapeOne(c, extra)
    {
      assert [c][1..] == [];
      assert EscapeOne(c, extra) + [] == EscapeOne(c, extra);
    }
  }

  // ---------- the method

  /** The first pass: how many bytes the escaped text takes. */
  method CountEscaped(data: array<byte>, len: nat, extra: byte) returns (useLen: nat)
    requires len <= data.Length
    ensures useLen == |Escaped(data[..len], extra)|
    ensures useLen == len ==> Escaped(data[..len], extra) == data[..len]
  {
    useLen := len;
    assert data[..0] == [];
    for i := 0 to len
      invariant useLen == len - i + |Escaped(data[..i], extra)|
      invariant useLen == len ==> Escaped(data[..i], extra) == data[..i]
    {
      OneMore(data[..len], i, extra);
      if IsEscape(data[i], extra) {
        useLen := useLen + 1;
      }
      assert data[..len][..i] == data[..i] && data[..len][..i + 1] == data[..i + 1];
    }
  }

  lemma OneMore(s: seq<byte>, i: nat, extra: byte)
    requires i < |s|
    ensures Escaped(s[..i + 1], extra) == Escaped(s[..i], extra) + EscapeOne(s[i], extra)
  {
    EscapedAdds(s[..i], [s[i]], extra);
    assert s[..i + 1] == s[..i] + [s[i]];
    assert [s[i]][1..] == [];
    assert EscapeOne(s[i], extra) + [] == EscapeOne(s[i], extra);
  }

  /** The escaped text never outgrows its final length on the way. */
  lemma PrefixFits(s: seq<byte>, i: nat, extra: byte)
    requires i <= |s|
    ensures |Escaped(s[..i], extra)| + |s| - i <= |Escaped(s, extra)|
  {
    EscapedAdds(s[..i], s[i..], extra);
    assert s == s[..i] + s[i..];
  }

  /** The body of the second loop. */
  method Put(buf: array<byte>, pos: nat, value: byte, extra: byte) returns (d: nat)
    requires pos + |EscapeOne(value, extra)| <= buf.Length
    modifies buf
    ensures d == pos + |EscapeOne(value, extra)|
    ensures buf[..d] == old(buf[..pos]) + EscapeOne(value, extra)
  {
    d := pos;
    var c := value;
    if IsEscape(c, extra) {
      buf[d] := BACKSLASH;
      d := d + 1;
      c := Letter(c);
    }
    buf[d] := c;
    d := d + 1;
  }

  lemma Regroup(a: seq<byte>, b: seq<byte>, c: seq<byte>)
    ensures (a + b) + c == a + (b + c)
  {
  }

  /** Append the escaped form of the data to str. */
  method SqlEscape(str: seq<byte>, data: array?<byte>, len: nat, extra: byte) returns (r: seq<byte>)
    requires data != null ==> len <= data.Length
    ensures r == str + Escaped(if data == null then [] else data[..len], extra)
  {
    if !(data != null && len != 0) {
      assert str + [] == str;
      return str;
    }
    ghost var s := data[..len];
    var useLen := CountEscaped(data, len, extra);
    if useLen == len {
      return str + data[..len];
    }
    var buf := new byte[|str| + useLen](i requires 0 <= i < |str| + useLen => if i < |str| then str[i] else 0x20);
    var d := |str|;
    assert s[..0] == [] && buf[..d] == str + [];
    for i := 0 to len
      invariant data[..len] == s
      invariant d == |str| + |Escaped(s[..i], extra)|
      invariant d <= buf.Length && buf[..d] == str + Escaped(s[..i], extra)
    {
      PrefixFits(s, i + 1, extra);
      OneMore(s, i, extra);
      d := Put(buf, d, data[i], extra);
      Regroup(str, Escaped(s[..i], extra), EscapeOne(s[i], extra));
    }
    assert s[..len] == s;
    assert buf[..d] == buf[..];
    r := buf[..];
  }
}
