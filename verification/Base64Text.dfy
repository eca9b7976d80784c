/** Base64 text (RFC 4648, section 4) as engine/Base64.cpp reads and writes it: the alphabet, the regrouping of
    8-bit bytes into 6-bit codes and back, the line breaking of the encoder, and the two readings of a text. */
module Base64Text {
  import opened Bytes

  const PAD: byte := 0x3d
  const CR: byte := 0x0d
  const LF: byte := 0x0a
  const EOLN: seq<byte> := [CR, LF]

  // ---------- alphabet

  function Alphabet(i: byte): byte {
    if i < 26 then i + 65 else if i < 52 then i + 71 else if i < 62 then i - 4 else if i == 62 then 0x2b else 0x2f
  }

  /** The translation table; 255 marks a character outside the alphabet. */
  function Ato64(c: byte): byte {
    if 65 <= c <= 90 then c - 65
    else if 97 <= c <= 122 then c - 71
    else if 48 <= c <= 57 then c + 4
    else if c == 0x2b then 62
    else if c == 0x2f then 63
    else 255
  }

  predicate IsValid(c: byte) {
    Ato64(c) < 64
  }

  predicate IsIgnored(c: byte) {
    c == PAD || c == CR || c == LF || c == 9 || c == 32
  }

  lemma AlphabetInverse(i: byte, c: byte)
    ensures i < 64 ==> Ato64(Alphabet(i)) == i && !IsIgnored(Alphabet(i))
    ensures IsValid(c) ==> Alphabet(Ato64(c)) == c && !IsIgnored(c)
  {
  }

  /** The alphabet is that of RFC 4648, Table 1. */
  lemma AlphabetIs(i: byte)
    requires i < 64
    ensures Alphabet(i) as char == "ABCDEFGHIJKLMNOPQRSTUVWXYZabcdefghijklmnopqrstuvwxyz0123456789+/"[i as nat]
  {
    InParts(i as nat);
    InItsPart(i);
  }

  lemma InItsPart(i: byte)
    requires i < 64
    ensures i as nat < 64
    ensures Alphabet(i) as char
            == ("ABCDEFGHIJKLMNOPQRSTUVWXYZ" + "abcdefghijklmnopqrstuvwxyz" + "0123456789+/")[i as nat]
  {
    PartAt("ABCDEFGHIJKLMNOPQRSTUVWXYZ", "abcdefghijklmnopqrstuvwxyz", "0123456789+/", i as nat);
    if i < 26 {
      UpperCase(i);
    } else if i < 52 {
      LowerCase(i);
    } else {
      LastTwelve(i);
    }
  }

  lemma UpperCase(i: byte)
    requires i < 26
    ensures i as nat < 26 && Alphabet(i) as char == "ABCDEFGHIJKLMNOPQRSTUVWXYZ"[i as nat]
  {
    Shifted(i);
    Letters(i as nat);
  }

  lemma LowerCase(i: byte)
    requires 26 <= i < 52
    ensures 26 <= i as nat < 52 && Alphabet(i) as char == "abcdefghijklmnopqrstuvwxyz"[i as nat - 26]
  {
    Shifted(i);
    Letters(i as nat - 26);
  }

  lemma InParts(k: nat)
    requires k < 64
    ensures "ABCDEFGHIJKLMNOPQRSTUVWXYZabcdefghijklmnopqrstuvwxyz0123456789+/"[k]
            == ("ABCDEFGHIJKLMNOPQRSTUVWXYZ" + "abcdefghijklmnopqrstuvwxyz" + "0123456789+/")[k]
  {
    var t := "ABCDEFGHIJKLMNOPQRSTUVWXYZabcdefghijklmnopqrstuvwxyz0123456789+/";
    assert t[..52] == t[..26] + t[26..52];
  }

  lemma PartAt(a: string, b: string, c: string, k: nat)
    requires k < |a| + |b| + |c|
    ensures (a + b + c)[k] == if k < |a| then a[k] else if k < |a| + |b| then b[k - |a|] else c[k - |a| - |b|]
  {
  }

  lemma LastTwelve(i: byte)
    requires 52 <= i < 64
    ensures 52 <= i as nat < 64 && Alphabet(i) as char == "0123456789+/"[i as nat - 52]
  {
  }

  lemma Letters(k: nat)
    requires k < 26
    ensures "ABCDEFGHIJKLMNOPQRSTUVWXYZ"[k] as int == 65 + k && "abcdefghijklmnopqrstuvwxyz"[k] as int == 97 + k
  {
  }

  lemma Shifted(i: byte)
    ensures i < 26 ==> (i + 65) as nat == i as nat + 65
    ensures i < 52 ==> (i + 71) as nat == i as nat + 71
  {
  }

  lemma PartsAreValid(k: nat, c: byte)
    requires k < 64 && ("ABCDEFGHIJKLMNOPQRSTUVWXYZ" + "abcdefghijklmnopqrstuvwxyz" + "0123456789+/")[k] == c as char
    ensures IsValid(c)
  {
    PartAt("ABCDEFGHIJKLMNOPQRSTUVWXYZ", "abcdefghijklmnopqrstuvwxyz", "0123456789+/", k);
    if k < 52 {
      Letters(if k < 26 then k else k - 26);
    }
  }

  /** Only the characters of the alphabet have a code, and it is their place there. */
  lemma CodesAre(c: byte)
    ensures IsValid(c) <==>
              c as char in "ABCDEFGHIJKLMNOPQRSTUVWXYZabcdefghijklmnopqrstuvwxyz0123456789+/"
    ensures IsValid(c) ==>
              "ABCDEFGHIJKLMNOPQRSTUVWXYZabcdefghijklmnopqrstuvwxyz0123456789+/"[Ato64(c) as nat] == c as char
  {
    var t := "ABCDEFGHIJKLMNOPQRSTUVWXYZabcdefghijklmnopqrstuvwxyz0123456789+/";
    if IsValid(c) {
      AlphabetIs(Ato64(c));
      AlphabetInverse(0, c);
    } else if k :| 0 <= k < 64 && t[k] == c as char {
      InParts(k);
      PartsAreValid(k, c);
      assert false;
    }
  }

  /** Padding, line ends, and the characters that the liberal reading skips. */
  lemma IgnoredAre(c: byte)
    ensures IsIgnored(c) <==> c as char in "=\r\n\t "
    ensures PAD as char == '=' && |EOLN| == 2 && EOLN[0] as char == '\r' && EOLN[1] as char == '\n'
  {
  }

  predicate AllCodes(codes: seq<byte>) {
    forall k :: 0 <= k < |codes| ==> codes[k] < 64
  }

  predicate AllValid(t: seq<byte>) {
    forall k :: 0 <= k < |t| ==> IsValid(t[k])
  }

  function Symbols(codes: seq<byte>): (t: seq<byte>)
    ensures |t| == |codes|
  {
    seq(|codes|, k requires 0 <= k < |codes| => Alphabet(codes[k]))
  }

  function Codes(t: seq<byte>): (codes: seq<byte>)
    ensures |codes| == |t|
  {
    seq(|t|, k requires 0 <= k < |t| => Ato64(t[k]))
  }

  lemma CodesOfSymbols(codes: seq<byte>)
    requires AllCodes(codes)
    ensures AllValid(Symbols(codes)) && Codes(Symbols(codes)) == codes
  {
    forall k | 0 <= k < |codes| ensures Ato64(Alphabet(codes[k])) == codes[k] {
      AlphabetInverse(codes[k], 0);
    }
  }

  lemma SymbolsOfCodes(t: seq<byte>)
    requires AllValid(t)
    ensures AllCodes(Codes(t)) && Symbols(Codes(t)) == t
  {
    forall k | 0 <= k < |t| ensures Alphabet(Ato64(t[k])) == t[k] {
      AlphabetInverse(0, t[k]);
    }
  }

  // ---------- bytes and 6-bit codes

  // Codes of the bytes x, y, z
  function Code0(x: byte): byte { x >> 2 }
  function Code1(x: byte, y: byte): byte { ((x << 4) | (y >> 4)) & 0x3f }
  function Code2(y: byte, z: byte): byte { ((y << 2) | (z >> 6)) & 0x3f }
  function Code3(z: byte): byte { z & 0x3f }

  // Bytes of the codes p, q, r, t
  function Byte0(p: byte, q: byte): byte { (p << 2) | (q >> 4) }
  function Byte1(q: byte, r: byte): byte { (q << 4) | (r >> 2) }
  function Byte2(r: byte, t: byte): byte { (r << 6) | t }

  /** Three bytes, the first one on top, are the number that their four codes are. */
  lemma CodesAreNumbers(x: byte, y: byte, z: byte)
    ensures Code0(x) as nat == x as nat / 4
    ensures Code1(x, y) as nat == x as nat % 4 * 16 + y as nat / 16
    ensures Code2(y, z) as nat == y as nat % 16 * 4 + z as nat / 64
    ensures Code3(z) as nat == z as nat % 64
  {
    FirstCode(x);
    SecondCode(x, y);
    ThirdCode(y, z);
    FourthCode(z);
  }

  lemma FirstCode(x: byte)
    ensures Code0(x) as nat == x as nat / 4
  {
  }

  lemma SecondCode(x: byte, y: byte)
    ensures Code1(x, y) as nat == x as nat % 4 * 16 + y as nat / 16
  {
    var a, b := (x & 0x03) << 4, y >> 4;
    assert Code1(x, y) == a + b && a <= 0x30 && b < 16;
    assert a as nat == x as nat % 4 * 16;
    assert b as nat == y as nat / 16;
    NatSum(a, b);
  }

  lemma ThirdCode(y: byte, z: byte)
    ensures Code2(y, z) as nat == y as nat % 16 * 4 + z as nat / 64
  {
    var m := y & 0x0f;
    LowNibble(y);
    ShiftedByTwo(m);
    HighBits(z);
    assert Code2(y, z) == (m << 2) + (z >> 6) && (m << 2) < 64 && z >> 6 < 64;
    NatSum(m << 2, z >> 6);
  }

  lemma LowNibble(y: byte)
    ensures y & 0x0f < 16 && (y & 0x0f) as nat == y as nat % 16
  {
  }

  lemma ShiftedByTwo(m: byte)
    requires m < 16
    ensures (m << 2) as nat == m as nat * 4
  {
  }

  lemma HighBits(z: byte)
    ensures (z >> 6) as nat == z as nat / 64
  {
  }

  lemma NatSum(a: byte, b: byte)
    requires a < 64 && b < 64
    ensures (a + b) as nat == a as nat + b as nat
  {
  }

  lemma FourthCode(z: byte)
    ensures Code3(z) as nat == z as nat % 64
  {
  }

  function CodesOf3(x: byte, y: byte, z: byte): (codes: seq<byte>)
    ensures |codes| == 4
  {
    [Code0(x), Code1(x, y), Code2(y, z), Code3(z)]
  }

  function BytesOf4(p: byte, q: byte, r: byte, t: byte): (b: seq<byte>)
    ensures |b| == 3
  {
    [Byte0(p, q), Byte1(q, r), Byte2(r, t)]
  }

  function Sextets(b: seq<byte>): (codes: seq<byte>)
    decreases |b|
  {
    if |b| == 0 then []
    else if |b| == 1 then [Code0(b[0]), Code1(b[0], 0)]
    else if |b| == 2 then [Code0(b[0]), Code1(b[0], b[1]), Code2(b[1], 0)]
    else CodesOf3(b[0], b[1], b[2]) + Sextets(b[3..])
  }

  /** Back to bytes; None for a lone last code, or when the bits left over at the end are not zero. */
  function Octets(codes: seq<byte>): Option<seq<byte>>
    decreases |codes|
  {
    if |codes| == 0 then Some([])
    else if |codes| == 1 then None
    else if |codes| == 2 then
      if codes[1] & 0x0f == 0 then Some([Byte0(codes[0], codes[1])]) else None
    else if |codes| == 3 then
      if codes[2] & 0x03 == 0 then Some([Byte0(codes[0], codes[1]), Byte1(codes[1], codes[2])]) else None
    else
      Prepend(BytesOf4(codes[0], codes[1], codes[2], codes[3]), Octets(codes[4..]))
  }

  function Prepend(b: seq<byte>, rest: Option<seq<byte>>): Option<seq<byte>> {
    if rest.Some? then Some(b + rest.value) else None
  }

  lemma {:induction false} SextetsAreCodes(b: seq<byte>)
    ensures AllCodes(Sextets(b))
    ensures |Sextets(b)| == (|b| * 4 + 2) / 3
    decreases |b|
  {
    if |b| >= 3 {
      SextetsAreCodes(b[3..]);
    }
  }

  /** Three bytes survive the regrouping, and the left-over bits after one or two bytes are zero. */
  lemma Regroup(x: byte, y: byte, z: byte)
    ensures Byte0(Code0(x), Code1(x, y)) == x
    ensures Byte1(Code1(x, y), Code2(y, z)) == y
    ensures Byte2(Code2(y, z), Code3(z)) == z
    ensures Code1(x, 0) & 0x0f == 0 && Code2(y, 0) & 0x03 == 0
  {
  }

  /** Four codes survive it too; the last of two or three does when the bits it cannot pass on are zero. */
  lemma RegroupCodes(p: byte, q: byte, r: byte, t: byte)
    requires p < 64 && q < 64 && r < 64 && t < 64
    ensures Code0(Byte0(p, q)) == p
    ensures Code1(Byte0(p, q), Byte1(q, r)) == q
    ensures Code2(Byte1(q, r), Byte2(r, t)) == r
    ensures Code3(Byte2(r, t)) == t
    ensures q & 0x0f == 0 ==> Code1(Byte0(p, q), 0) == q
    ensures r & 0x03 == 0 ==> Code2(Byte1(q, r), 0) == r
  {
  }

  lemma {:induction false} OctetsOfSextets(b: seq<byte>)
    ensures Octets(Sextets(b)) == Some(b)
    decreases |b|
  {
    if |b| >= 3 {
      var head := CodesOf3(b[0], b[1], b[2]);
      OctetsOfSextets(b[3..]);
      Regroup(b[0], b[1], b[2]);
      assert Sextets(b)[4..] == Sextets(b[3..]);
      assert BytesOf4(head[0], head[1], head[2], head[3]) == b[..3];
      assert b == b[..3] + b[3..];
    } else if |b| == 2 {
      Regroup(b[0], b[1], 0);
      assert b == [b[0], b[1]];
    } else if |b| == 1 {
      Regroup(b[0], 0, 0);
      assert b == [b[0]];
    }
  }

  /** Only the codes an encoder writes can be turned back into bytes. */
  lemma {:induction false} SextetsOfOctets(codes: seq<byte>, b: seq<byte>)
    requires AllCodes(codes) && Octets(codes) == Some(b)
    ensures Sextets(b) == codes
    decreases |codes|
  {
    if |codes| >= 4 {
      var rest := Octets(codes[4..]).value;
      SextetsOfOctets(codes[4..], rest);
      RegroupCodes(codes[0], codes[1], codes[2], codes[3]);
      assert b[3..] == rest;
      assert CodesOf3(b[0], b[1], b[2]) == codes[..4];
      assert codes == codes[..4] + codes[4..];
    } else if |codes| == 3 {
      RegroupCodes(codes[0], codes[1], codes[2], 0);
      assert Sextets(b) == [codes[0], codes[1], codes[2]];
    } else if |codes| == 2 {
      RegroupCodes(codes[0], codes[1], 0, 0);
      assert Sextets(b) == [codes[0], codes[1]];
    }
  }

  lemma {:induction false} OctetsLength(codes: seq<byte>)
    ensures Octets(codes).Some? ==> |codes| % 4 != 1 && |Octets(codes).value| == |codes| / 4 * 3 + Rest(|codes| % 4)
    ensures |codes| % 4 == 0 ==> Octets(codes).Some?
    decreases |codes|
  {
    if |codes| >= 4 {
      OctetsLength(codes[4..]);
    }
  }

  /** Bytes carried by the codes after the last full block. */
  function Rest(rest: nat): nat {
    if rest == 0 then 0 else rest - 1
  }

  // ---------- the encoder's text

  function EncodedLength(n: nat): nat {
    n / 3 * 4 + if n % 3 != 0 then 4 else 0
  }

  /** Line breaks needed inside a text of len characters, none after the last line. */
  function LineBreaks(len: nat, lineLen: nat): nat {
    if lineLen == 0 then 0
    else if len % lineLen == 0 && len / lineLen != 0 then len / lineLen - 1
    else len / lineLen
  }

  /** The characters followed by a break each time a line is full, as long as breaks are left. */
  function Broken(chars: seq<byte>, lineLen: nat, crtLine: nat, lines: nat): seq<byte>
    decreases |chars|
  {
    if chars == [] then []
    else if lines != 0 && crtLine + 1 == lineLen then
      [chars[0]] + EOLN + Broken(chars[1..], lineLen, 0, lines - 1)
    else
      [chars[0]] + Broken(chars[1..], lineLen, crtLine + 1, lines)
  }

  /** The buffer the encoder fills: characters and breaks from the start, padding in what is left. */
  function Filled(chars: seq<byte>, len: nat, lineLen: nat): seq<byte>
    requires |chars| <= len
  {
    var lines := LineBreaks(len, lineLen);
    var t := Broken(chars, lineLen, 0, lines);
    BrokenLength(chars, lineLen, 0, lines);
    t + Repeat(PAD, len + 2 * lines - |t|)
  }

  function Chars(b: seq<byte>): (t: seq<byte>)
    ensures |t| == (|b| * 4 + 2) / 3
  {
    SextetsAreCodes(b);
    Symbols(Sextets(b))
  }

  function Encoded(b: seq<byte>, lineLen: nat, lineAtEnd: bool): seq<byte> {
    if b == [] then []
    else Filled(Chars(b), EncodedLength(|b|), lineLen) + if lineAtEnd then EOLN else []
  }

  /** The text without line breaks: the code characters, padded to a multiple of 4. */
  function Padded(chars: seq<byte>): seq<byte> {
    chars + Repeat(PAD, (4 - |chars| % 4) % 4)
  }

  /** How many breaks Broken writes. */
  function BreaksIn(n: nat, lineLen: nat, crtLine: nat, lines: nat): nat
    decreases n
  {
    if n == 0 then 0
    else if lines != 0 && crtLine + 1 == lineLen then 1 + BreaksIn(n - 1, lineLen, 0, lines - 1)
    else BreaksIn(n - 1, lineLen, crtLine + 1, lines)
  }

  /** The write position after the last character: one per character, two per break, never past the buffer. */
  lemma {:induction false} BrokenLength(chars: seq<byte>, lineLen: nat, crtLine: nat, lines: nat)
    ensures |Broken(chars, lineLen, crtLine, lines)| == |chars| + 2 * BreaksIn(|chars|, lineLen, crtLine, lines)
    ensures BreaksIn(|chars|, lineLen, crtLine, lines) <= lines
    decreases |chars|
  {
    if chars != [] {
      if lines != 0 && crtLine + 1 == lineLen {
        BrokenLength(chars[1..], lineLen, 0, lines - 1);
      } else {
        BrokenLength(chars[1..], lineLen, crtLine + 1, lines);
      }
    }
  }
}
