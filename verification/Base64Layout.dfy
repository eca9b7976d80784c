/** The encoder's text (engine/Base64.cpp:76-191), character by character. */
module Base64Layout {
  import opened Bytes
  import opened Numbers
  import opened Base64Text

  // ---------- the characters

  /** The text before layout has one character of the alphabet for each 6-bit code. */
  lemma CharIsSymbol(b: seq<byte>, k: nat)
    requires k < |Chars(b)|
    ensures |Sextets(b)| == |Chars(b)| && Sextets(b)[k] < 64
    ensures Chars(b)[k] as char
            == "ABCDEFGHIJKLMNOPQRSTUVWXYZabcdefghijklmnopqrstuvwxyz0123456789+/"[Sextets(b)[k] as nat]
  {
    SextetsAreCodes(b);
    AlphabetIs(Sextets(b)[k]);
  }

  /** The codes are the four 6-bit digits, the highest first, of each group of three bytes, missing ones taken as zero;
      digits without a bit of the input are left out. */
  lemma CodesAt(b: seq<byte>, g: nat)
    requires 3 * g < |b|
    ensures var x, y, z := b[3 * g] as nat, if 3 * g + 1 < |b| then b[3 * g + 1] as nat else 0,
                           if 3 * g + 2 < |b| then b[3 * g + 2] as nat else 0;
            var c := Sextets(b);
            && 4 * g + 1 < |c| && c[4 * g] as nat == x / 4 && c[4 * g + 1] as nat == x % 4 * 16 + y / 16
            && (4 * g + 2 < |c| <==> 3 * g + 1 < |b|) && (4 * g + 3 < |c| <==> 3 * g + 2 < |b|)
            && (4 * g + 2 < |c| ==> c[4 * g + 2] as nat == y % 16 * 4 + z / 64)
            && (4 * g + 3 < |c| ==> c[4 * g + 3] as nat == z % 64)
  {
    CodesFrom(b, g);
    var c, rest := Sextets(b), Sextets(b[3 * g..]);
    FirstCodes(b[3 * g..]);
    assert |c| == 4 * g + |rest|;
    assert c[4 * g] == rest[0] && c[4 * g + 1] == rest[1];
    assert 2 < |rest| ==> c[4 * g + 2] == rest[2];
    assert 3 < |rest| ==> c[4 * g + 3] == rest[3];
  }

  lemma {:induction false} CodesFrom(b: seq<byte>, g: nat)
    requires 3 * g <= |b|
    ensures 4 * g <= |Sextets(b)| && Sextets(b)[4 * g..] == Sextets(b[3 * g..])
    decreases g
  {
    if g == 0 {
      assert b[0..] == b && Sextets(b)[0..] == Sextets(b);
    } else {
      CodesFrom(b[3..], g - 1);
      assert b[3..][3 * (g - 1)..] == b[3 * g..];
      assert Sextets(b)[4..] == Sextets(b[3..]);
      assert Sextets(b)[4..][4 * (g - 1)..] == Sextets(b)[4 * g..];
    }
  }

  lemma FirstCodes(b: seq<byte>)
    requires b != []
    ensures var x, y, z := b[0] as nat, if 1 < |b| then b[1] as nat else 0, if 2 < |b| then b[2] as nat else 0;
            var c := Sextets(b);
            && 1 < |c| && c[0] as nat == x / 4 && c[1] as nat == x % 4 * 16 + y / 16
            && (2 < |c| <==> 1 < |b|) && (3 < |c| <==> 2 < |b|)
            && (2 < |c| ==> c[2] as nat == y % 16 * 4 + z / 64)
            && (3 < |c| ==> c[3] as nat == z % 64)
  {
    ZeroByte();
    if |b| == 1 {
      CodesAreNumbers(b[0], 0, 0);
    } else if |b| == 2 {
      CodesAreNumbers(b[0], b[1], 0);
    } else {
      CodesAreNumbers(b[0], b[1], b[2]);
    }
  }

  lemma ZeroByte()
    ensures (0 as byte) as nat == 0
  {
  }

  // ---------- the lines

  /** A character stands behind the breaks of the full lines before it, and a line that it fills is broken behind it,
      as long as breaks are left. */
  lemma {:induction false} BrokenAt(chars: seq<byte>, lineLen: nat, crtLine: nat, lines: nat, k: nat)
    requires crtLine < lineLen && k < |chars|
    ensures var t, full := Broken(chars, lineLen, crtLine, lines), (crtLine + k) / lineLen;
            var at := k + 2 * Min(lines, full);
            && at < |t| && t[at] == chars[k]
            && (full < lines && (crtLine + k + 1) % lineLen == 0 ==> at + 2 < |t| && t[at + 1] == CR && t[at + 2] == LF)
    decreases k
  {
    BrokenLength(chars, lineLen, crtLine, lines);
    if lines == 0 {
      Plain(chars, lineLen, crtLine);
      DivisionIsNat(crtLine + k, lineLen);
    } else if k == 0 {
      Quotient(crtLine, lineLen, 0, crtLine);
      if crtLine + 1 < lineLen {
        Quotient(crtLine + 1, lineLen, 0, crtLine + 1);
      }
    } else if crtLine + 1 == lineLen {
      BrokenAt(chars[1..], lineLen, 0, lines - 1, k - 1);
      NextLine(k - 1, lineLen);
      NextLine(k, lineLen);
    } else {
      BrokenAt(chars[1..], lineLen, crtLine + 1, lines, k - 1);
    }
  }

  lemma DivisionIsNat(n: nat, d: nat)
    requires d > 0
    ensures n / d >= 0
  {
  }

  lemma NextLine(k: nat, lineLen: nat)
    requires lineLen > 0
    ensures (lineLen + k) / lineLen == k / lineLen + 1 && (lineLen + k) % lineLen == k % lineLen
  {
    Quotient(lineLen + k, lineLen, k / lineLen + 1, k % lineLen);
  }

  lemma {:induction false} Plain(chars: seq<byte>, lineLen: nat, crtLine: nat)
    ensures Broken(chars, lineLen, crtLine, 0) == chars
    decreases |chars|
  {
    if chars != [] {
      Plain(chars[1..], lineLen, crtLine + 1);
    }
  }

  lemma {:induction false} BreaksAre(n: nat, lineLen: nat, crtLine: nat, lines: nat)
    requires crtLine < lineLen
    ensures BreaksIn(n, lineLen, crtLine, lines) == Min(lines, (crtLine + n) / lineLen)
    decreases n
  {
    if lines == 0 {
      NoBreaks(n, lineLen, crtLine);
      DivisionIsNat(crtLine + n, lineLen);
    } else if n == 0 {
      Quotient(crtLine, lineLen, 0, crtLine);
    } else if crtLine + 1 == lineLen {
      BreaksAre(n - 1, lineLen, 0, lines - 1);
      NextLine(n - 1, lineLen);
    } else {
      BreaksAre(n - 1, lineLen, crtLine + 1, lines);
    }
  }

  lemma {:induction false} NoBreaks(n: nat, lineLen: nat, crtLine: nat)
    ensures BreaksIn(n, lineLen, crtLine, 0) == 0
    decreases n
  {
    if n > 0 {
      NoBreaks(n - 1, lineLen, crtLine + 1);
    }
  }

  lemma BreaksNeeded(len: nat, lineLen: nat)
    requires 0 < len
    ensures LineBreaks(len, lineLen) == if lineLen == 0 then 0 else (len - 1) / lineLen
  {
    if lineLen != 0 {
      var q, r := len / lineLen, len % lineLen;
      DivisionIsNat(len, lineLen);
      assert len == lineLen * q + r;
      if r == 0 {
        assert q != 0;
        assert lineLen * q == lineLen * (q - 1) + lineLen;
        Quotient(len - 1, lineLen, q - 1, lineLen - 1);
      } else {
        Quotient(len - 1, lineLen, q, r - 1);
      }
    }
  }

  lemma PaddedLength(n: nat)
    ensures EncodedLength(n) == (n + 2) / 3 * 4
  {
  }

  /** The parts of the text: characters and breaks, padding, and the line end asked for. */
  lemma EncodedIs(b: seq<byte>, lineLen: nat, lineAtEnd: bool)
    requires b != []
    ensures var lines := LineBreaks(EncodedLength(|b|), lineLen);
            var t, n := Broken(Chars(b), lineLen, 0, lines), EncodedLength(|b|) + 2 * lines;
            && |t| <= n && Encoded(b, lineLen, lineAtEnd) == t + Repeat(PAD, n - |t|) + if lineAtEnd then EOLN else []
  {
    BrokenLength(Chars(b), lineLen, 0, LineBreaks(EncodedLength(|b|), lineLen));
  }

  /** In a text with lines, character k stands behind the breaks of the full lines before it, and a line that it fills
      is broken behind it as long as breaks are left. */
  lemma CharPlace(b: seq<byte>, lineLen: nat, lineAtEnd: bool, k: nat)
    requires lineLen > 0 && k < |Chars(b)|
    ensures var t, full, lines := Encoded(b, lineLen, lineAtEnd), k / lineLen, LineBreaks(EncodedLength(|b|), lineLen);
            var at := k + 2 * if full < lines then full else lines;
            && 0 <= at < |t| && t[at] == Chars(b)[k]
            && (full < lines && (k + 1) % lineLen == 0 ==>
                  at + 2 < |t| && t[at + 1] == 0x0d && t[at + 2] == 0x0a)
  {
    var lines := LineBreaks(EncodedLength(|b|), lineLen);
    var t := Broken(Chars(b), lineLen, 0, lines);
    EncodedIs(b, lineLen, lineAtEnd);
    BrokenAt(Chars(b), lineLen, 0, lines, k);
    DivisionIsNat(k, lineLen);
    var rest := Repeat(PAD, EncodedLength(|b|) + 2 * lines - |t|) + if lineAtEnd then EOLN else [];
    assert Encoded(b, lineLen, lineAtEnd) == t + rest;
    Front(t, rest, k + 2 * Min(lines, k / lineLen));
  }

  lemma Front(t: seq<byte>, rest: seq<byte>, at: nat)
    ensures at < |t| ==> (t + rest)[at] == t[at]
    ensures at + 2 < |t| ==> (t + rest)[at + 1] == t[at + 1] && (t + rest)[at + 2] == t[at + 2]
  {
  }

  /** Behind the last character and its break there is padding, up to the length without the line end asked for. */
  lemma PadPlace(b: seq<byte>, lineLen: nat, lineAtEnd: bool, k: nat)
    requires lineLen > 0
    requires var full, lines := |Chars(b)| / lineLen, LineBreaks(EncodedLength(|b|), lineLen);
             |Chars(b)| + 2 * (if full < lines then full else lines) <= k < EncodedLength(|b|) + 2 * lines
    ensures k < |Encoded(b, lineLen, lineAtEnd)| && Encoded(b, lineLen, lineAtEnd)[k] == 0x3d
  {
    var lines := LineBreaks(EncodedLength(|b|), lineLen);
    EncodedIs(b, lineLen, lineAtEnd);
    BrokenLength(Chars(b), lineLen, 0, lines);
    BreaksAre(|Chars(b)|, lineLen, 0, lines);
  }

  lemma TextLength(b: seq<byte>, lineLen: nat, lineAtEnd: bool)
    requires b != []
    ensures var t := Encoded(b, lineLen, lineAtEnd);
            var n := EncodedLength(|b|) + 2 * LineBreaks(EncodedLength(|b|), lineLen);
            |t| == (if lineAtEnd then n + 2 else n) && (lineAtEnd ==> t[n] == 0x0d && t[n + 1] == 0x0a)
  {
    EncodedIs(b, lineLen, lineAtEnd);
  }
}
